/** The exact copy of a bundle directory into an empty target. */
module TreeCopy {
  import opened Sequences
  import opened Text

  type Bytes = seq<bv8>

  datatype Node =
    | File(bytes: Bytes, executable: bool)
    | Directory(entries: seq<Entry>)
    | SymbolicLink
    | Special

  datatype Entry = Entry(name: string, node: Node)

  /** What the copy puts at a path. */
  datatype Item = FileItem(bytes: Bytes) | DirectoryItem

  datatype Row = Row(path: string, item: Item)

  predicate ValidName(name: string) {
    name != "" && '/' !in name
  }

  /** A directory tree as a file system presents it: distinct names without slashes. */
  predicate ValidEntries(entries: seq<Entry>)
    decreases entries
  {
    (forall i, j | 0 <= i < j < |entries| :: entries[i].name != entries[j].name) &&
    forall e | e in entries :: ValidEntry(e)
  }

  predicate ValidEntry(e: Entry)
    decreases e
  {
    ValidName(e.name) && (e.node.Directory? ==> ValidEntries(e.node.entries))
  }

  /** Regular non-executable files and directories only, all the way down. */
  predicate PlainEntries(entries: seq<Entry>)
    decreases entries
  {
    forall e | e in entries :: PlainEntry(e)
  }

  predicate PlainEntry(e: Entry)
    decreases e
  {
    match e.node
    case File(_, executable) => !executable
    case Directory(entries) => PlainEntries(entries)
    case _ => false
  }

  function PathIn(relative: string, name: string): string {
    if relative != "" then relative + "/" + name else name
  }

  /** The paths and contents below a directory. */
  function Rows(relative: string, entries: seq<Entry>): seq<Row>
    decreases entries
  {
    if entries == [] then [] else RowsOf(relative, entries[0]) + Rows(relative, entries[1..])
  }

  function RowsOf(relative: string, e: Entry): seq<Row>
    decreases e
  {
    var path := PathIn(relative, e.name);
    match e.node
    case File(bytes, _) => [Row(path, FileItem(bytes))]
    case Directory(entries) => [Row(path, DirectoryItem)] + Rows(path, entries)
    case _ => []
  }

  function Size(entries: seq<Entry>): nat
    decreases entries
  {
    if entries == [] then 0
    else (match entries[0].node case Directory(sub) => 2 + Size(sub) case _ => 1) + Size(entries[1..])
  }

  // ----- order does not matter to the rows

  lemma {:induction false} RowsConcat(relative: string, a: seq<Entry>, b: seq<Entry>)
    ensures Rows(relative, a + b) == Rows(relative, a) + Rows(relative, b)
    ensures Size(a + b) == Size(a) + Size(b)
  {
    if a == [] {
      assert a + b == b;
    } else {
      assert (a + b)[1..] == a[1..] + b;
      RowsConcat(relative, a[1..], b);
    }
  }

  function NameKey(): Entry -> string {
    (e: Entry) => e.name
  }

  lemma {:induction false} RowsInsert(relative: string, x: Entry, s: seq<Entry>)
    ensures multiset(Rows(relative, InsertByKey(x, s, NameKey()))) ==
      multiset(Rows(relative, s)) + multiset(RowsOf(relative, x))
    ensures Size(InsertByKey(x, s, NameKey())) == Size(s) + Size([x])
  {
    assert Rows(relative, [x]) == RowsOf(relative, x);
    if s != [] {
      var last := |s| - 1;
      assert s == s[..last] + [s[last]];
      RowsConcat(relative, s, [x]);
      RowsConcat(relative, s[..last], [s[last]]);
      RowsInsert(relative, x, s[..last]);
      RowsConcat(relative, InsertByKey(x, s[..last], NameKey()), [s[last]]);
    }
  }

  lemma {:induction false} RowsSorted(relative: string, s: seq<Entry>)
    ensures multiset(Rows(relative, SortByKey(s, NameKey()))) == multiset(Rows(relative, s))
    ensures Size(SortByKey(s, NameKey())) == Size(s)
  {
    if s != [] {
      var last := |s| - 1;
      assert s == s[..last] + [s[last]];
      RowsSorted(relative, s[..last]);
      RowsInsert(relative, s[last], SortByKey(s[..last], NameKey()));
      RowsConcat(relative, s[..last], [s[last]]);
      assert Rows(relative, [s[last]]) == RowsOf(relative, s[last]);
    }
  }

  // ----- no path occurs twice

  /** The path itself or something below it. */
  predicate AtOrBelow(path: string, p: string) {
    path == p || StartsWith(path, p + "/")
  }

  ghost predicate UniquePaths(rows: multiset<Row>) {
    forall a, b | a in rows && b in rows && a.path == b.path :: a == b && rows[a] == 1
  }

  lemma BelowTwoNames(relative: string, a: string, b: string, path: string)
    requires ValidName(a) && ValidName(b)
    requires AtOrBelow(path, PathIn(relative, a)) && AtOrBelow(path, PathIn(relative, b))
    ensures a == b
  {
    if |a| <= |b| { ShorterNameBelow(relative, a, b, path); } else { ShorterNameBelow(relative, b, a, path); }
  }

  /** The name stands at the same place in every path at or below its own, and reaches to the next slash. */
  lemma NameInPath(relative: string, name: string, path: string)
    requires ValidName(name) && AtOrBelow(path, PathIn(relative, name))
    ensures var start := |PathIn(relative, "")|;
            start + |name| <= |path| && path[start..start + |name|] == name &&
            (forall j | start <= j < start + |name| :: path[j] != '/') &&
            (|path| > start + |name| ==> path[start + |name|] == '/')
  {
    var p, start := PathIn(relative, name), |PathIn(relative, "")|;
    assert p[start..] == name && |p| == start + |name|;
    assert path[..|p|] == p;
    assert path[start..|p|] == path[..|p|][start..];
    forall j | start <= j < |p| ensures path[j] != '/' { assert path[j] == path[start..|p|][j - start]; }
    if |path| > |p| { assert path[|p|] == (p + "/")[|p|]; }
  }

  lemma ShorterNameBelow(relative: string, a: string, b: string, path: string)
    requires ValidName(a) && ValidName(b) && |a| <= |b|
    requires AtOrBelow(path, PathIn(relative, a)) && AtOrBelow(path, PathIn(relative, b))
    ensures a == b
  {
    NameInPath(relative, a, path);
    NameInPath(relative, b, path);
  }

  lemma {:induction false} RowsAreBelow(relative: string, entries: seq<Entry>, r: Row)
    requires r in Rows(relative, entries)
    ensures exists e | e in entries :: r in RowsOf(relative, e)
  {
    if r !in RowsOf(relative, entries[0]) {
      RowsAreBelow(relative, entries[1..], r);
    }
  }

  lemma {:induction false} RowsOfAreBelow(relative: string, e: Entry, r: Row)
    requires ValidEntry(e) && r in RowsOf(relative, e)
    ensures AtOrBelow(r.path, PathIn(relative, e.name))
    ensures r.path == PathIn(relative, e.name) ==> r == RowsOf(relative, e)[0]
    decreases e
  {
    var path := PathIn(relative, e.name);
    if e.node.Directory? && r in Rows(path, e.node.entries) {
      RowsAreBelow(path, e.node.entries, r);
      var f :| f in e.node.entries && r in RowsOf(path, f);
      RowsOfAreBelow(path, f, r);
      assert ValidEntry(f) && PathIn(path, f.name) == path + "/" + f.name;
      assert StartsWith(r.path, path + "/") && |r.path| > |path|;
    }
  }

  lemma UniqueUnion(a: seq<Row>, b: seq<Row>)
    requires UniquePaths(multiset(a)) && UniquePaths(multiset(b))
    requires forall x, y | x in a && y in b :: x.path != y.path
    ensures UniquePaths(multiset(a + b))
  {
    assert multiset(a + b) == multiset(a) + multiset(b);
    forall x, y | x in multiset(a + b) && y in multiset(a + b) && x.path == y.path
      ensures x == y && multiset(a + b)[x] == 1
    {
      if x in a { assert x !in b; assert y !in b; } else { assert x in b && y !in a; }
    }
  }

  lemma {:induction false} RowsUnique(relative: string, entries: seq<Entry>)
    requires ValidEntries(entries)
    ensures UniquePaths(multiset(Rows(relative, entries)))
    decreases entries
  {
    if entries != [] {
      var first, rest := entries[0], entries[1..];
      assert ValidEntries(rest);
      RowsOfUnique(relative, first);
      RowsUnique(relative, rest);
      forall x, y | x in RowsOf(relative, first) && y in Rows(relative, rest) ensures x.path != y.path {
        RowsAreBelow(relative, rest, y);
        var e :| e in rest && y in RowsOf(relative, e);
        RowsOfAreBelow(relative, first, x);
        RowsOfAreBelow(relative, e, y);
        if x.path == y.path { BelowTwoNames(relative, first.name, e.name, x.path); }
      }
      UniqueUnion(RowsOf(relative, first), Rows(relative, rest));
    }
  }

  lemma {:induction false} RowsOfUnique(relative: string, e: Entry)
    requires ValidEntry(e)
    ensures UniquePaths(multiset(RowsOf(relative, e)))
    decreases e
  {
    if e.node.Directory? {
      var path := PathIn(relative, e.name);
      RowsUnique(path, e.node.entries);
      forall y | y in Rows(path, e.node.entries) ensures y.path != path {
        RowsAreBelow(path, e.node.entries, y);
        var f :| f in e.node.entries && y in RowsOf(path, f);
        RowsOfAreBelow(path, f, y);
      }
      UniqueUnion([Row(path, DirectoryItem)], Rows(path, e.node.entries));
    }
  }

  // ----- the rows are what one finds by walking the tree

  /** The node found by following the names from a directory. */
  function Lookup(entries: seq<Entry>, names: seq<string>): Option<Node>
    requires names != []
    decreases |names|, |entries|
  {
    if entries == [] then None
    else if entries[0].name == names[0] then
      if |names| == 1 then Some(entries[0].node)
      else if entries[0].node.Directory? then Lookup(entries[0].node.entries, names[1..])
      else None
    else Lookup(entries[1..], names)
  }

  function ItemsOf(node: Node): set<Item> {
    match node
    case File(bytes, _) => {FileItem(bytes)}
    case Directory(_) => {DirectoryItem}
    case _ => {}
  }

  lemma {:induction false} FoundIsListed(relative: string, entries: seq<Entry>, names: seq<string>, item: Item)
    requires ValidEntries(entries) && names != []
    requires Lookup(entries, names).Some? && item in ItemsOf(Lookup(entries, names).value)
    ensures Row(PathIn(relative, Join(names, "/")), item) in Rows(relative, entries)
    decreases |names|, |entries|
  {
    var later := entries[1..];
    if entries[0].name != names[0] {
      assert ValidEntries(later);
      FoundIsListed(relative, later, names, item);
    } else if |names| > 1 {
      var path := PathIn(relative, names[0]);
      var below := names[1..];
      assert ValidEntry(entries[0]);
      FoundIsListed(path, entries[0].node.entries, below, item);
      PathOfNames(relative, names[0], below);
      assert [names[0]] + below == names;
    }
  }

  lemma {:induction false} LookupFirst(entries: seq<Entry>, names: seq<string>, e: Entry)
    requires ValidEntries(entries) && names != [] && e in entries && e.name == names[0]
    ensures Lookup(entries, names) ==
            if |names| == 1 then Some(e.node)
            else if e.node.Directory? then Lookup(e.node.entries, names[1..]) else None
  {
    if entries[0] != e {
      var i :| 0 <= i < |entries| && entries[i] == e;
      assert entries[0].name != entries[i].name;
      assert ValidEntries(entries[1..]) && entries[1..][i - 1] == e;
      LookupFirst(entries[1..], names, e);
    }
  }

  lemma PathOfNames(relative: string, name: string, rest: seq<string>)
    requires name != "" && rest != []
    ensures PathIn(PathIn(relative, name), Join(rest, "/")) == PathIn(relative, Join([name] + rest, "/"))
  {
    JoinOneMore(name, rest);
    var tail := Join(rest, "/");
    assert relative + "/" + (name + "/" + tail) == relative + "/" + name + "/" + tail;
  }

  lemma JoinOneMore(name: string, rest: seq<string>)
    requires rest != []
    ensures Join([name] + rest, "/") == name + "/" + Join(rest, "/")
  {
    assert ([name] + rest)[1..] == rest;
  }

  lemma {:induction false} ListedIsFound(relative: string, entries: seq<Entry>, r: Row) returns (names: seq<string>)
    requires ValidEntries(entries) && r in Rows(relative, entries)
    ensures names != [] && r.path == PathIn(relative, Join(names, "/"))
    ensures Lookup(entries, names).Some? && r.item in ItemsOf(Lookup(entries, names).value)
    decreases entries
  {
    RowsAreBelow(relative, entries, r);
    var e :| e in entries && r in RowsOf(relative, e);
    var path := PathIn(relative, e.name);
    if e.node.Directory? && r in Rows(path, e.node.entries) {
      assert ValidEntry(e);
      var rest := ListedIsFound(path, e.node.entries, r);
      names := [e.name] + rest;
      assert names[1..] == rest;
      PathOfNames(relative, e.name, rest);
    } else {
      names := [e.name];
    }
    LookupFirst(entries, names, e);
  }

  // ----- the target file system

  datatype Failure =
    | SourceMissing | SourceInvalid | TargetInvalid | TargetNotEmpty
    | SymlinkDenied | SpecialFile | FileSystemError

  datatype Result<+T> = Ok(value: T) | Err(error: Failure)

  /** What makes the copy fail at an entry. */
  function Fault(e: Entry): Option<Failure> {
    match e.node
    case SymbolicLink => Some(SymlinkDenied)
    case Special => Some(SpecialFile)
    case File(_, executable) => if executable then Some(SpecialFile) else None
    case Directory(_) => None
  }

  function FirstFault(entries: seq<Entry>): Option<Failure> {
    if entries == [] then None
    else if Fault(entries[0]).Some? then Fault(entries[0])
    else FirstFault(entries[1..])
  }

  /** The order of a visit: all entries of a directory by name, then what is below them, the last directory first. */
  function VisitOrder(entries: seq<Entry>): seq<Entry>
    decreases Size(entries), 1
  {
    RowsSorted("", entries);
    var sorted := SortByKey(entries, NameKey());
    sorted + BelowOrder(sorted)
  }

  function BelowOrder(entries: seq<Entry>): seq<Entry>
    decreases Size(entries), 0
  {
    if entries == [] then []
    else BelowOrder(entries[1..]) + if entries[0].node.Directory? then VisitOrder(entries[0].node.entries) else []
  }

  /** `path.dirname` of a path below the root; the root itself is the empty path. */
  function DirName(path: string): string {
    var slash := LastIndexOf(path, "/");
    if slash < 0 then "" else path[..slash]
  }

  /** `mkdir` with `recursive`: missing directories are created from the nearest existing ancestor down. */
  function MakeDirectories(nodes: map<string, Item>, path: string): Result<map<string, Item>>
    decreases |path|
  {
    if path == "" then Ok(nodes)
    else if path in nodes then (if nodes[path].DirectoryItem? then Ok(nodes) else Err(FileSystemError))
    else
      var parent := MakeDirectories(nodes, DirName(path));
      if parent.Err? then parent else Ok(parent.value[path := DirectoryItem])
  }

  predicate HasDirectory(nodes: map<string, Item>, path: string) {
    path == "" || (path in nodes && nodes[path] == DirectoryItem)
  }

  lemma DirNameOfChild(relative: string, name: string)
    requires ValidName(name)
    ensures DirName(PathIn(relative, name)) == relative
  {
    var path := PathIn(relative, name);
    forall j | |path| - |name| <= j ensures !OccursAt(path, "/", j) {
      if j < |path| { assert path[j] == name[j - (|path| - |name|)] &&
        path[j] in name; assert path[j..j + 1] == [path[j]]; }
    }
    if relative != "" {
      assert path[|relative|..|relative| + 1] == "/";
      assert OccursAt(path, "/", |relative|);
      assert path[..|relative|] == relative;
    }
  }

  /** The path itself or a directory above it, short of the root. */
  predicate IsAbove(p: string, path: string)
    decreases |path|
  {
    path != "" && (p == path || IsAbove(p, DirName(path)))
  }

  /** The nearest of these paths that exists, and it is no directory. */
  predicate Obstructs(nodes: map<string, Item>, path: string, p: string) {
    IsAbove(p, path) && p in nodes && nodes[p] != DirectoryItem
  }

  ghost predicate Obstructed(nodes: map<string, Item>, path: string) {
    exists p :: Obstructs(nodes, path, p) && forall q | IsAbove(q, path) && |q| > |p| :: q !in nodes
  }

  lemma {:induction false} AboveIsShorter(p: string, path: string)
    requires IsAbove(p, path)
    ensures 0 < |p| <= |path| && (|p| == |path| ==> p == path)
    decreases |path|
  {
    if p != path { AboveIsShorter(p, DirName(path)); }
  }

  /** What `mkdir` adds: directories above the path, each inside a directory; it fails exactly when obstructed. */
  ghost predicate OnlyDirectoriesAdded(nodes: map<string, Item>, path: string, after: map<string, Item>) {
    (forall p | p in nodes :: p in after && after[p] == nodes[p]) && HasDirectory(after, path) &&
    forall p | p in after && p !in nodes ::
      IsAbove(p, path) && after[p] == DirectoryItem && HasDirectory(after, DirName(p))
  }

  lemma {:induction false} MakeDirectoriesExact(nodes: map<string, Item>, path: string)
    ensures var r := MakeDirectories(nodes, path);
            (r.Ok? <==> !Obstructed(nodes, path)) &&
            (r.Ok? ==> OnlyDirectoriesAdded(nodes, path, r.value)) && (r.Err? ==> r.error == FileSystemError)
    decreases |path|
  {
    if path != "" {
      if path in nodes {
        PresentDecides(nodes, path);
      } else {
        MakeDirectoriesExact(nodes, DirName(path));
        ObstructedAbove(nodes, path);
        if !Obstructed(nodes, path) {
          OneMoreDirectory(nodes, path, MakeDirectories(nodes, DirName(path)).value);
        }
      }
    }
  }

  lemma PresentDecides(nodes: map<string, Item>, path: string)
    requires path != "" && path in nodes
    ensures Obstructed(nodes, path) <==> nodes[path] != DirectoryItem
  {
    forall p | IsAbove(p, path) ensures |p| <= |path| && (|p| == |path| ==> p == path) { AboveIsShorter(p, path); }
    assert nodes[path] != DirectoryItem ==> Obstructs(nodes, path, path);
    assert IsAbove(path, path);
  }

  lemma OneMoreDirectory(nodes: map<string, Item>, path: string, parents: map<string, Item>)
    requires path != "" && path !in nodes && OnlyDirectoriesAdded(nodes, DirName(path), parents)
    ensures OnlyDirectoriesAdded(nodes, path, parents[path := DirectoryItem])
  {
  }

  lemma ObstructedAbove(nodes: map<string, Item>, path: string)
    requires path != "" && path !in nodes
    ensures Obstructed(nodes, path) <==> Obstructed(nodes, DirName(path))
  {
    var parent := DirName(path);
    if p :| Obstructs(nodes, path, p) && forall q | IsAbove(q, path) && |q| > |p| :: q !in nodes {
      assert Obstructs(nodes, parent, p);
      assert forall q | IsAbove(q, parent) :: IsAbove(q, path);
    }
    if p :| Obstructs(nodes, parent, p) && forall q | IsAbove(q, parent) && |q| > |p| :: q !in nodes {
      assert Obstructs(nodes, path, p);
      assert forall q | IsAbove(q, path) :: q == path || IsAbove(q, parent);
    }
  }

  /** Below an existing directory only the last directory is created. */
  lemma MakeChild(nodes: map<string, Item>, relative: string, name: string)
    requires ValidName(name) && HasDirectory(nodes, relative) && PathIn(relative, name) !in nodes
    ensures MakeDirectories(nodes, PathIn(relative, name)) == Ok(nodes[PathIn(relative, name) := DirectoryItem])
  {
    DirNameOfChild(relative, name);
  }

  datatype FileRecord = FileRecord(path: string, digest: string, size: nat)

  function PathKey(): FileRecord -> string {
    (f: FileRecord) => f.path
  }

  function RecordOf(digest: Bytes -> string, r: Row): FileRecord
    requires r.item.FileItem?
  {
    FileRecord(r.path, digest(r.item.bytes), |r.item.bytes|)
  }

  /** The records of the file rows, in order. */
  function Records(digest: Bytes -> string, rows: seq<Row>): seq<FileRecord> {
    if rows == [] then []
    else Records(digest, rows[..|rows| - 1]) +
         if rows[|rows| - 1].item.FileItem? then [RecordOf(digest, rows[|rows| - 1])] else []
  }

  /** The nodes are exactly what the rows say. */
  ghost predicate Holds(nodes: map<string, Item>, rows: multiset<Row>) {
    (forall r | r in rows :: r.path in nodes && nodes[r.path] == r.item) &&
    forall p | p in nodes :: Row(p, nodes[p]) in rows
  }

  /** Every node is a row of the source, with its contents. */
  ghost predicate FromSource(all: multiset<Row>, nodes: map<string, Item>) {
    forall p | p in nodes :: Row(p, nodes[p]) in all
  }

  /** A directory still to be traversed. */
  datatype Frame = Frame(relative: string, entries: seq<Entry>)

  function PendingRows(stack: seq<Frame>): seq<Row> {
    if stack == [] then []
    else PendingRows(stack[..|stack| - 1]) + Rows(stack[|stack| - 1].relative, stack[|stack| - 1].entries)
  }

  function PendingSize(stack: seq<Frame>): nat {
    if stack == [] then 0 else PendingSize(stack[..|stack| - 1]) + 1 + Size(stack[|stack| - 1].entries)
  }

  /** What is still to be visited below the frames of the stack, and with the rest of a directory before it. */
  function StackOrder(stack: seq<Frame>): seq<Entry> {
    if stack == [] then [] else VisitOrder(stack[|stack| - 1].entries) + StackOrder(stack[..|stack| - 1])
  }

  function Remaining(rest: seq<Entry>, stack: seq<Frame>): seq<Entry> {
    rest + BelowOrder(rest) + StackOrder(stack)
  }

  predicate PlainFrames(stack: seq<Frame>) {
    forall f | f in stack :: PlainEntries(f.entries)
  }

  /** Written so far and still to come make up the whole tree, and every pending directory exists. */
  ghost predicate Progress(
    all: multiset<Row>, nodes: map<string, Item>, written: seq<Row>, rest: seq<Row>, stack: seq<Frame>)
  {
    multiset(written) + multiset(rest) + multiset(PendingRows(stack)) == all &&
    Holds(nodes, multiset(written)) && FramesReady(nodes, stack)
  }

  predicate FramesReady(nodes: map<string, Item>, stack: seq<Frame>) {
    forall f | f in stack :: ValidEntries(f.entries) && HasDirectory(nodes, f.relative)
  }

  lemma FramesStayReady(nodes: map<string, Item>, stack: seq<Frame>, path: string, item: Item)
    requires FramesReady(nodes, stack) && path !in nodes
    ensures FramesReady(nodes[path := item], stack)
  {
  }

  lemma FramesPush(nodes: map<string, Item>, stack: seq<Frame>, f: Frame)
    requires FramesReady(nodes, stack) && ValidEntries(f.entries) && HasDirectory(nodes, f.relative)
    ensures FramesReady(nodes, stack + [f])
  {
    assert forall g :: g in stack + [f] <==> g in stack || g == f;
  }

  /** The next row to come is not at a path that exists already. */
  lemma NextPathIsNew(all: multiset<Row>, nodes: map<string, Item>, written: seq<Row>, rest: seq<Row>,
                      stack: seq<Frame>, r: Row)
    requires UniquePaths(all) && Progress(all, nodes, written, rest, stack) && r in rest
    ensures r.path !in nodes
  {
  }

  lemma HoldsOneMore(nodes: map<string, Item>, written: seq<Row>, r: Row)
    requires Holds(nodes, multiset(written)) && r.path !in nodes
    ensures Holds(nodes[r.path := r.item], multiset(written + [r]))
  {
    assert multiset(written + [r]) == multiset(written) + multiset{r};
  }

  lemma PendingPush(stack: seq<Frame>, f: Frame)
    ensures PendingRows(stack + [f]) == PendingRows(stack) + Rows(f.relative, f.entries)
    ensures PendingSize(stack + [f]) == PendingSize(stack) + 1 + Size(f.entries)
  {
    assert (stack + [f])[..|stack|] == stack;
  }

  /** Writing a file moves its row from what is to come to what is written. */
  lemma WriteKeepsProgress(all: multiset<Row>, nodes: map<string, Item>, written: seq<Row>, relative: string,
                           rest: seq<Entry>, stack: seq<Frame>)
    requires UniquePaths(all) && rest != [] && rest[0].node.File?
    requires Progress(all, nodes, written, Rows(relative, rest), stack)
    ensures var r := Row(PathIn(relative, rest[0].name), FileItem(rest[0].node.bytes));
            r.path !in nodes &&
            Progress(all, nodes[r.path := r.item], written + [r], Rows(relative, rest[1..]), stack)
  {
    var r := Row(PathIn(relative, rest[0].name), FileItem(rest[0].node.bytes));
    assert Rows(relative, rest) == [r] + Rows(relative, rest[1..]);
    NextPathIsNew(all, nodes, written, Rows(relative, rest), stack, r);
    HoldsOneMore(nodes, written, r);
    FramesStayReady(nodes, stack, r.path, r.item);
    WriteBalance(written, r, Rows(relative, rest[1..]));
  }

  lemma WriteBalance(written: seq<Row>, r: Row, later: seq<Row>)
    ensures multiset(written) + multiset([r] + later) == multiset(written + [r]) + multiset(later)
  {
  }

  /** Entering a directory writes its own row and leaves its contents pending. */
  lemma EnterKeepsProgress(all: multiset<Row>, nodes: map<string, Item>, written: seq<Row>, relative: string,
                           rest: seq<Entry>, stack: seq<Frame>)
    requires UniquePaths(all) && rest != [] && rest[0].node.Directory? && ValidEntry(rest[0])
    requires Progress(all, nodes, written, Rows(relative, rest), stack)
    ensures var r := Row(PathIn(relative, rest[0].name), DirectoryItem);
            r.path !in nodes &&
            Progress(all, nodes[r.path := r.item], written + [r], Rows(relative, rest[1..]),
                     stack + [Frame(r.path, rest[0].node.entries)])
  {
    var r := Row(PathIn(relative, rest[0].name), DirectoryItem);
    var f := Frame(r.path, rest[0].node.entries);
    assert Rows(relative, rest) == [r] + Rows(r.path, f.entries) + Rows(relative, rest[1..]);
    NextPathIsNew(all, nodes, written, Rows(relative, rest), stack, r);
    HoldsOneMore(nodes, written, r);
    FramesStayReady(nodes, stack, r.path, r.item);
    FramesPush(nodes[r.path := r.item], stack, f);
    EnterBalance(written, r, Rows(r.path, f.entries), Rows(relative, rest[1..]), PendingRows(stack));
    PendingPush(stack, f);
  }

  lemma EnterBalance(written: seq<Row>, r: Row, inner: seq<Row>, later: seq<Row>, pending: seq<Row>)
    ensures multiset(written) + multiset([r] + inner + later) + multiset(pending) ==
            multiset(written + [r]) + multiset(later) + multiset(pending + inner)
  {
  }

  lemma PlainPush(stack: seq<Frame>, f: Frame)
    ensures PlainFrames(stack + [f]) <==> PlainFrames(stack) && PlainEntries(f.entries)
  {
    assert forall g :: g in stack + [f] <==> g in stack || g == f;
  }

  lemma PlainSorted(entries: seq<Entry>)
    ensures PlainEntries(SortByKey(entries, NameKey())) <==> PlainEntries(entries)
    ensures forall e :: e in SortByKey(entries, NameKey()) <==> e in entries
  {
    forall e ensures e in SortByKey(entries, NameKey()) <==> e in entries {
      SameMultisetSameMembers(SortByKey(entries, NameKey()), entries, e);
    }
  }

  lemma RecordsStep(digest: Bytes -> string, rows: seq<Row>, r: Row)
    ensures Records(digest, rows + [r]) == Records(digest, rows) + if r.item.FileItem?
      then [RecordOf(digest, r)] else []
  {
    assert (rows + [r])[..|rows|] == rows;
  }

  datatype TargetKind = Absent | RealDirectory | NotADirectory | Unavailable

  /** The target: what is at its root, and what is below. */
  class TargetTree {
    var kind: TargetKind
    var nodes: map<string, Item>

    /** Recursive `mkdir`. */
    method Mkdir(path: string) returns (ok: bool)
      modifies this`nodes
      ensures ok <==> MakeDirectories(old(nodes), path).Ok?
      ensures nodes == if ok then MakeDirectories(old(nodes), path).value else old(nodes)
    {
      var made := MakeDirectories(nodes, path);
      ok := made.Ok?;
      if ok { nodes := made.value; }
    }

    /** An exclusive write: it fails on an existing path. */
    method WriteNew(path: string, bytes: Bytes) returns (ok: bool)
      modifies this`nodes
      ensures ok <==> path !in old(nodes)
      ensures nodes == if ok then old(nodes)[path := FileItem(bytes)] else old(nodes)
    {
      ok := path !in nodes;
      if ok { nodes := nodes[path := FileItem(bytes)]; }
    }
  }

  method WriteFile(target: TargetTree, relative: string, e: Entry)
    requires ValidName(e.name) && e.node.File? && HasDirectory(target.nodes, relative)
    requires PathIn(relative, e.name) !in target.nodes
    modifies target`nodes
    ensures target.nodes == old(target.nodes)[PathIn(relative, e.name) := FileItem(e.node.bytes)]
  {
    DirNameOfChild(relative, e.name);
    var parent := target.Mkdir(DirName(PathIn(relative, e.name)));
    var ok := target.WriteNew(PathIn(relative, e.name), e.node.bytes);
  }

  method CreateDirectory(target: TargetTree, relative: string, e: Entry)
    requires ValidName(e.name) && HasDirectory(target.nodes, relative)
    requires PathIn(relative, e.name) !in target.nodes
    modifies target`nodes
    ensures target.nodes == old(target.nodes)[PathIn(relative, e.name) := DirectoryItem]
  {
    MakeChild(target.nodes, relative, e.name);
    var ok := target.Mkdir(PathIn(relative, e.name));
  }

  /** One entry: a directory is created and left for later, a plain file is written. */
  method CopyEntry(target: TargetTree, relative: string, e: Entry, ghost rest: seq<Entry>,
                   stack0: seq<Frame>, files0: seq<FileRecord>, digest: Bytes -> string,
                   ghost all: multiset<Row>, ghost written0: seq<Row>)
    returns (failure: Option<Failure>, stack: seq<Frame>, files: seq<FileRecord>, ghost written: seq<Row>)
    requires UniquePaths(all) && rest != [] && e == rest[0] && ValidEntry(e) && HasDirectory(target.nodes, relative)
    requires Progress(all, target.nodes, written0, Rows(relative, rest), stack0)
    requires files0 == Records(digest, written0)
    modifies target`nodes
    ensures failure.Some? <==> !e.node.Directory? && !PlainEntry(e)
    ensures failure == Fault(e)
    ensures failure.None? ==> HasDirectory(target.nodes, relative)
    ensures failure.None? ==> Progress(all, target.nodes, written, Rows(relative, rest[1..]), stack)
    ensures failure.None? ==> files == Records(digest, written)
    ensures failure.None? ==> Advances(relative, e, stack0, stack)
    ensures failure.Some? ==> FromSource(all, target.nodes)
  {
    failure, stack, files, written := None, stack0, files0, written0;
    var path := PathIn(relative, e.name);
    if e.node.SymbolicLink? { return Some(SymlinkDenied), stack, files, written; }
    if e.node.Directory? {
      EnterKeepsProgress(all, target.nodes, written, relative, rest, stack);
      RecordsStep(digest, written, Row(path, DirectoryItem));
      CreateDirectory(target, relative, e);
      stack, written := stack + [Frame(path, e.node.entries)], written + [Row(path, DirectoryItem)];
      return;
    }
    if !e.node.File? || e.node.executable { return Some(SpecialFile), stack, files, written; }
    WriteKeepsProgress(all, target.nodes, written, relative, rest, stack);
    RecordsStep(digest, written, Row(path, FileItem(e.node.bytes)));
    WriteFile(target, relative, e);
    files := files + [FileRecord(path, digest(e.node.bytes), |e.node.bytes|)];
    written := written + [Row(path, FileItem(e.node.bytes))];
  }

  /** The stack after an entry that did not fail. */
  predicate Advances(relative: string, e: Entry, stack0: seq<Frame>, stack: seq<Frame>) {
    if e.node.Directory? then stack == stack0 + [Frame(PathIn(relative, e.name), e.node.entries)]
    else stack == stack0 && PlainEntry(e)
  }

  lemma StackPushed(stack: seq<Frame>, f: Frame)
    ensures StackOrder(stack + [f]) == VisitOrder(f.entries) + StackOrder(stack)
  {
    assert (stack + [f])[..|stack|] == stack;
  }

  lemma Regroup(e: Entry, later: seq<Entry>, below: seq<Entry>, inside: seq<Entry>, others: seq<Entry>)
    ensures [e] + later + (below + inside) + others == [e] + (later + below + (inside + others))
  {
  }

  /** Past an entry the visit goes on with what remained behind it. */
  lemma EntryVisited(relative: string, rest: seq<Entry>, stack0: seq<Frame>, stack: seq<Frame>)
    requires rest != [] && Advances(relative, rest[0], stack0, stack)
    ensures Remaining(rest, stack0) == [rest[0]] + Remaining(rest[1..], stack)
  {
    var e, later := rest[0], rest[1..];
    var inside := if e.node.Directory? then VisitOrder(e.node.entries) else [];
    assert rest == [e] + later;
    assert BelowOrder(rest) == BelowOrder(later) + inside;
    Regroup(e, later, BelowOrder(later), inside, StackOrder(stack0));
    if e.node.Directory? {
      StackPushed(stack0, Frame(PathIn(relative, e.name), e.node.entries));
    } else {
      assert inside + StackOrder(stack0) == StackOrder(stack0);
    }
  }

  lemma FaultKinds(entries: seq<Entry>)
    ensures FirstFault(entries) in {None, Some(SymlinkDenied), Some(SpecialFile)}
  {
  }

  lemma FaultlessFirst(e: Entry, later: seq<Entry>)
    ensures FirstFault([e] + later) == if Fault(e).Some? then Fault(e) else FirstFault(later)
  {
    assert ([e] + later)[1..] == later;
  }

  lemma FaultyFirst(rest: seq<Entry>, stack: seq<Frame>)
    requires rest != [] && Fault(rest[0]).Some?
    ensures FirstFault(Remaining(rest, stack)) == Fault(rest[0])
  {
    assert Remaining(rest, stack)[0] == rest[0];
  }

  lemma DirectoryVisited(stack: seq<Frame>, current: Frame)
    ensures Remaining([], stack + [current]) == Remaining(SortByKey(current.entries, NameKey()), stack)
  {
    StackPushed(stack, current);
    NothingBefore(stack + [current]);
  }

  lemma NothingBefore(stack: seq<Frame>)
    ensures Remaining([], stack) == StackOrder(stack)
  {
  }

  /** What one entry does to the measure of the work left. */
  lemma EntrySize(relative: string, rest: seq<Entry>, stack0: seq<Frame>, stack: seq<Frame>)
    requires rest != [] && Advances(relative, rest[0], stack0, stack)
    ensures PendingSize(stack) + Size(rest[1..]) < PendingSize(stack0) + Size(rest)
  {
    if rest[0].node.Directory? {
      PendingPush(stack0, Frame(PathIn(relative, rest[0].name), rest[0].node.entries));
    }
  }

  /** And to the plainness of what is pending. */
  lemma EntryPlain(relative: string, rest: seq<Entry>, stack0: seq<Frame>, stack: seq<Frame>)
    requires rest != [] && Advances(relative, rest[0], stack0, stack)
    ensures PlainFrames(stack) && PlainEntries(rest[1..]) <==> PlainFrames(stack0) && PlainEntries(rest)
  {
    PlainCons(rest);
    if rest[0].node.Directory? {
      PlainPush(stack0, Frame(PathIn(relative, rest[0].name), rest[0].node.entries));
    }
  }

  lemma PlainCons(rest: seq<Entry>)
    requires rest != []
    ensures PlainEntries(rest) <==> PlainEntry(rest[0]) && PlainEntries(rest[1..])
  {
    assert forall e :: e in rest <==> e == rest[0] || e in rest[1..];
  }

  /** Sorting the entries of a directory changes neither its rows nor whether it is plain. */
  lemma BeginDirectory(all: multiset<Row>, nodes: map<string, Item>, written: seq<Row>, current: Frame,
                       stack: seq<Frame>)
    requires Progress(all, nodes, written, Rows(current.relative, current.entries), stack)
    requires ValidEntries(current.entries)
    ensures var entries := SortByKey(current.entries, NameKey());
            Progress(all, nodes, written, Rows(current.relative, entries), stack) &&
            Size(entries) == Size(current.entries) && (PlainEntries(entries) <==> PlainEntries(current.entries)) &&
            forall e | e in entries :: ValidEntry(e)
  {
    RowsSorted(current.relative, current.entries);
    PlainSorted(current.entries);
  }

  /** The state of the traversal inside one directory, with the entries still to come there. */
  ghost predicate Copying(all: multiset<Row>, digest: Bytes -> string, nodes: map<string, Item>, written: seq<Row>,
                          files: seq<FileRecord>, relative: string, rest: seq<Entry>, stack: seq<Frame>) {
    HasDirectory(nodes, relative) && Progress(all, nodes, written, Rows(relative, rest), stack) &&
    files == Records(digest, written)
  }

  /** The later work is no more than the earlier, and plain exactly when that was. */
  predicate Balanced(stack0: seq<Frame>, rest0: seq<Entry>, stack: seq<Frame>, rest: seq<Entry>) {
    PendingSize(stack) + Size(rest) <= PendingSize(stack0) + Size(rest0) &&
    (PlainFrames(stack) && PlainEntries(rest) <==> PlainFrames(stack0) && PlainEntries(rest0))
  }

  lemma BalancedTransitive(stack0: seq<Frame>, rest0: seq<Entry>, stack1: seq<Frame>, rest1: seq<Entry>,
                           stack2: seq<Frame>, rest2: seq<Entry>)
    requires Balanced(stack0, rest0, stack1, rest1) && Balanced(stack1, rest1, stack2, rest2)
    ensures Balanced(stack0, rest0, stack2, rest2)
  {
  }

  /** The next entry of a directory. */
  method CopyNext(target: TargetTree, relative: string, rest: seq<Entry>, stack0: seq<Frame>, files0: seq<FileRecord>,
                  digest: Bytes -> string, ghost all: multiset<Row>, ghost written0: seq<Row>)
    returns (failure: Option<Failure>, stack: seq<Frame>, files: seq<FileRecord>, ghost written: seq<Row>)
    requires UniquePaths(all) && rest != [] && ValidEntry(rest[0])
    requires Copying(all, digest, target.nodes, written0, files0, relative, rest, stack0)
    modifies target`nodes
    ensures failure.Some? ==> !PlainEntry(rest[0])
    ensures failure.None? ==> Copying(all, digest, target.nodes, written, files, relative, rest[1..], stack)
    ensures failure.None? ==> Balanced(stack0, rest, stack, rest[1..])
    ensures failure.Some? ==> FromSource(all, target.nodes)
    ensures FirstFault(Remaining(rest, stack0)) ==
            if failure.Some? then failure else FirstFault(Remaining(rest[1..], stack))
  {
    failure, stack, files, written := CopyEntry(target, relative, rest[0], rest, stack0, files0, digest, all, written0);
    if failure.None? {
      EntrySize(relative, rest, stack0, stack);
      EntryPlain(relative, rest, stack0, stack);
      EntryVisited(relative, rest, stack0, stack);
      FaultlessFirst(rest[0], Remaining(rest[1..], stack));
    } else {
      FaultyFirst(rest, stack0);
    }
  }

  /** One directory of the traversal, its entries in the order of their names. */
  method CopyDirectory(target: TargetTree, current: Frame, stack0: seq<Frame>, files0: seq<FileRecord>,
                       digest: Bytes -> string, ghost all: multiset<Row>, ghost written0: seq<Row>)
    returns (failure: Option<Failure>, stack: seq<Frame>, files: seq<FileRecord>, ghost written: seq<Row>)
    requires UniquePaths(all) && ValidEntries(current.entries)
    requires Copying(all, digest, target.nodes, written0, files0, current.relative, current.entries, stack0)
    modifies target`nodes
    ensures failure.Some? ==> !PlainEntries(current.entries)
    ensures failure.None? ==> Copying(all, digest, target.nodes, written, files, "", [], stack)
    ensures failure.None? ==> Balanced(stack0, current.entries, stack, [])
    ensures failure.Some? ==> FromSource(all, target.nodes)
    ensures FirstFault(Remaining([], stack0 + [current])) ==
            if failure.Some? then failure else FirstFault(Remaining([], stack))
  {
    var rest := SortByKey(current.entries, NameKey());
    BeginDirectory(all, target.nodes, written0, current, stack0);
    PlainSorted(current.entries);
    DirectoryVisited(stack0, current);
    stack, files, written := stack0, files0, written0;
    while rest != []
      invariant forall e | e in rest :: ValidEntry(e) && e in current.entries
      invariant Copying(all, digest, target.nodes, written, files, current.relative, rest, stack)
      invariant Balanced(stack0, current.entries, stack, rest)
      invariant FirstFault(Remaining(rest, stack)) == FirstFault(Remaining([], stack0 + [current]))
      decreases |rest|
    {
      ghost var before := stack;
      failure, stack, files, written := CopyNext(target, current.relative, rest, stack, files, digest, all, written);
      if failure.Some? { return; }
      BalancedTransitive(stack0, current.entries, before, rest, stack, rest[1..]);
      rest := rest[1..];
    }
    failure := None;
  }

  lemma PendingPop(stack: seq<Frame>, last: Frame)
    requires stack != [] && last == stack[|stack| - 1]
    ensures PendingRows(stack) == PendingRows(stack[..|stack| - 1]) + Rows(last.relative, last.entries)
    ensures PendingSize(stack) == PendingSize(stack[..|stack| - 1]) + 1 + Size(last.entries)
    ensures PlainFrames(stack) <==> PlainFrames(stack[..|stack| - 1]) && PlainEntries(last.entries)
  {
    assert stack == stack[..|stack| - 1] + [last];
    PlainPush(stack[..|stack| - 1], last);
  }

  /** Taking the last frame off the stack makes its entries those still to come. */
  lemma PopFrame(all: multiset<Row>, digest: Bytes -> string, nodes: map<string, Item>, written: seq<Row>,
                 files: seq<FileRecord>, stack: seq<Frame>)
    requires stack != [] && Copying(all, digest, nodes, written, files, "", [], stack)
    ensures var last, below := stack[|stack| - 1], stack[..|stack| - 1];
            Copying(all, digest, nodes, written, files, last.relative, last.entries, below) &&
              ValidEntries(last.entries) &&
            PendingSize(stack) == PendingSize(below) + 1 + Size(last.entries) &&
            (PlainFrames(stack) <==> PlainFrames(below) && PlainEntries(last.entries))
  {
    PendingPop(stack, stack[|stack| - 1]);
    assert stack[|stack| - 1] in stack;
  }

  lemma WholeVisit(source: seq<Entry>)
    ensures Remaining([], [Frame("", source)]) == VisitOrder(source)
    ensures FirstFault(Remaining([], [])) == None
  {
    StackPushed([], Frame("", source));
    assert [] + [Frame("", source)] == [Frame("", source)];
    NothingBefore([Frame("", source)]);
    NothingBefore([]);
  }

  lemma LastApart<T>(s: seq<T>)
    requires s != []
    ensures s == s[..|s| - 1] + [s[|s| - 1]]
  {
  }

  /** The directory on top of the stack. */
  method CopyTop(target: TargetTree, stack0: seq<Frame>, files0: seq<FileRecord>, digest: Bytes -> string,
                 ghost all: multiset<Row>, ghost written0: seq<Row>)
    returns (failure: Option<Failure>, stack: seq<Frame>, files: seq<FileRecord>, ghost written: seq<Row>)
    requires UniquePaths(all) && stack0 != []
    requires Copying(all, digest, target.nodes, written0, files0, "", [], stack0)
    modifies target`nodes
    ensures failure.Some? ==> !PlainFrames(stack0) && FromSource(all, target.nodes)
    ensures failure.None? ==> Copying(all, digest, target.nodes, written, files, "", [], stack)
    ensures failure.None? ==> PendingSize(stack) < PendingSize(stack0) && (PlainFrames(stack) <==> PlainFrames(stack0))
    ensures FirstFault(Remaining([], stack0)) == if failure.Some? then failure else FirstFault(Remaining([], stack))
  {
    var current, rest := stack0[|stack0| - 1], stack0[..|stack0| - 1];
    PopFrame(all, digest, target.nodes, written0, files0, stack0);
    LastApart(stack0);
    failure, stack, files, written := CopyDirectory(target, current, rest, files0, digest, all, written0);
  }

  lemma StackStarts(source: seq<Entry>)
    ensures var stack := [Frame("", source)];
            PendingRows(stack) == Rows("", source) && (PlainFrames(stack) <==> PlainEntries(source))
  {
    var f := Frame("", source);
    PendingPush([], f);
    PlainPush([], f);
    assert [] + [f] == [f];
    assert PendingRows([]) + Rows("", source) == Rows("", source);
  }

  lemma StartBalance(none: seq<Row>, rows: seq<Row>)
    requires none == []
    ensures multiset(none) + multiset(none) + multiset(rows) == multiset(rows)
  {
  }

  lemma StartProgress(source: seq<Entry>)
    requires ValidEntries(source)
    ensures Progress(multiset(Rows("", source)), map[], [], [], [Frame("", source)])
  {
    StackStarts(source);
    StartBalance([], Rows("", source));
    assert forall f | f in [Frame("", source)] :: f == Frame("", source);
  }

  lemma CopyStarts(source: seq<Entry>, digest: Bytes -> string)
    requires ValidEntries(source)
    ensures Copying(multiset(Rows("", source)), digest, map[], [], [], "", [], [Frame("", source)])
  {
    StartProgress(source);
    assert Rows("", []) == [];
  }

  lemma CopyEnds(all: multiset<Row>, digest: Bytes -> string, nodes: map<string, Item>, written: seq<Row>,
                 files: seq<FileRecord>)
    requires Copying(all, digest, nodes, written, files, "", [], [])
    ensures multiset(written) == all && Holds(nodes, multiset(written)) && files == Records(digest, written)
    ensures FirstFault(Remaining([], [])) == None && PlainFrames([])
  {
    WholeVisit([]);
  }

  /** The explicit-stack traversal of a source directory into an empty target. */
  method CopyEntries(target: TargetTree, source: seq<Entry>, digest: Bytes -> string)
    returns (failure: Option<Failure>, files: seq<FileRecord>, ghost written: seq<Row>)
    requires ValidEntries(source) && target.nodes == map[]
    modifies target`nodes
    ensures failure.None? <==> PlainEntries(source)
    ensures failure == FirstFault(VisitOrder(source))
    ensures failure.None? ==>
      multiset(written) == multiset(Rows("", source)) && Holds(target.nodes, multiset(written)) &&
      files == Records(digest, written)
    ensures failure.Some? ==> FromSource(multiset(Rows("", source)), target.nodes)
  {
    ghost var all := multiset(Rows("", source));
    RowsUnique("", source);
    StackStarts(source);
    CopyStarts(source, digest);
    WholeVisit(source);
    files, written := [], [];
    var stack := [Frame("", source)];
    while stack != []
      invariant Copying(all, digest, target.nodes, written, files, "", [], stack)
      invariant PlainFrames(stack) <==> PlainEntries(source)
      invariant FirstFault(Remaining([], stack)) == FirstFault(VisitOrder(source))
      decreases PendingSize(stack)
    {
      failure, stack, files, written := CopyTop(target, stack, files, digest, all, written);
      if failure.Some? { return; }
    }
    CopyEnds(all, digest, target.nodes, written, files);
    failure := None;
  }

  /** The copy takes neither links nor special files nor executable ones. */
  predicate IsFaulty(node: Node) {
    node.SymbolicLink? || node.Special? || (node.File? && node.executable)
  }

  /** The entry is the first one of the visit that the copy does not take. */
  predicate FirstFaultyAt(visit: seq<Entry>, i: nat) {
    i < |visit| && IsFaulty(visit[i].node) && forall j | 0 <= j < i :: !IsFaulty(visit[j].node)
  }

  /** The first such entry of the visit is a link, or it is not. */
  ghost predicate MeetsFirst(visit: seq<Entry>, link: bool) {
    exists i: nat :: FirstFaultyAt(visit, i) && visit[i].node.SymbolicLink? == link
  }

  /** What stands in the way of a copy: the source, the target, or the first entry met that it does not take. */
  ghost predicate IsCause(kind: TargetKind, nodes: map<string, Item>, source: Option<Node>, failure: Failure) {
    var directory := source.Some? && source.value.Directory?;
    var usable := kind.Absent? || (kind.RealDirectory? && nodes == map[]);
    match failure
    case SourceMissing => source.None?
    case SourceInvalid => source.Some? && !source.value.Directory?
    case TargetInvalid => directory && (kind.NotADirectory? || kind.Unavailable?)
    case TargetNotEmpty => directory && kind.RealDirectory? && nodes != map[]
    case SymlinkDenied => directory && usable && MeetsFirst(VisitOrder(source.value.entries), true)
    case SpecialFile => directory && usable && MeetsFirst(VisitOrder(source.value.entries), false)
    case FileSystemError => false
  }

  lemma {:induction false} FirstFaultExact(visit: seq<Entry>) returns (i: nat)
    ensures FirstFault(visit).Some? ==>
      FirstFaultyAt(visit, i) &&
      (FirstFault(visit) == Some(SymlinkDenied) <==> visit[i].node.SymbolicLink?) &&
      (FirstFault(visit) == Some(SpecialFile) <==> !visit[i].node.SymbolicLink?)
  {
    i := 0;
    if visit != [] && Fault(visit[0]).None? {
      var later := FirstFaultExact(visit[1..]);
      i := later + 1;
    }
  }

  /** The whole copy into an absent or empty target, with the list of the files copied. */
  method CopyExactTree(target: TargetTree, source: Option<Node>, digest: Bytes -> string)
    returns (r: Result<seq<FileRecord>>)
    requires source.Some? && source.value.Directory? ==> ValidEntries(source.value.entries)
    requires !target.kind.RealDirectory? ==> target.nodes == map[]
    modifies target
    ensures r.Ok? <==>
      source.Some? && source.value.Directory? && PlainEntries(source.value.entries) &&
      (old(target.kind) == Absent || (old(target.kind) == RealDirectory && old(target.nodes) == map[]))
    ensures r.Ok? ==>
      target.kind == RealDirectory && Holds(target.nodes, multiset(Rows("", source.value.entries))) &&
      IsFileList(digest, multiset(Rows("", source.value.entries)), r.value)
    ensures r.Err? ==> IsCause(old(target.kind), old(target.nodes), source, r.error)
    ensures r.Err? && target.nodes != old(target.nodes) ==>
      source.Some? && source.value.Directory? && old(target.nodes) == map[] &&
      FromSource(multiset(Rows("", source.value.entries)), target.nodes)
  {
    if source.None? { return Err(SourceMissing); }
    if !source.value.Directory? { return Err(SourceInvalid); }
    match target.kind {
      case NotADirectory => return Err(TargetInvalid);
      case Unavailable => return Err(TargetInvalid);
      case RealDirectory => if target.nodes != map[] { return Err(TargetNotEmpty); }
      case Absent => target.kind := RealDirectory;
    }
    var failure, files, written := CopyEntries(target, source.value.entries, digest);
    ghost var first := FirstFaultExact(VisitOrder(source.value.entries));
    FaultKinds(VisitOrder(source.value.entries));
    if failure.Some? { return Err(failure.value); }
    RowsUnique("", source.value.entries);
    RecordsList(digest, written);
    SortedList(digest, multiset(written), files);
    return Ok(SortByKey(files, PathKey()));
  }

  /** One record for every file row and no other, no path twice, in the order of the paths. */
  ghost predicate IsFileList(digest: Bytes -> string, rows: multiset<Row>, files: seq<FileRecord>) {
    SortedByKey(files, PathKey()) && DistinctPaths(files) && DescribesFiles(digest, rows, files)
  }

  predicate DistinctPaths(files: seq<FileRecord>) {
    forall i, j | 0 <= i < j < |files| :: files[i].path != files[j].path
  }

  ghost predicate RecordsOf(digest: Bytes -> string, rows: multiset<Row>, files: seq<FileRecord>) {
    (forall r | r in rows && r.item.FileItem? :: RecordOf(digest, r) in files) &&
    forall f | f in files :: exists r | r in rows && r.item.FileItem? :: f == RecordOf(digest, r)
  }

  /** The record gives the path of a file row, the digest of its bytes and their number. */
  predicate IsRecordOf(digest: Bytes -> string, r: Row, f: FileRecord) {
    r.item.FileItem? && f.path == r.path && f.digest == digest(r.item.bytes) && f.size == |r.item.bytes|
  }

  /** Every file row has its record, and every record is that of a file row. */
  ghost predicate DescribesFiles(digest: Bytes -> string, rows: multiset<Row>, files: seq<FileRecord>) {
    (forall r | r in rows && r.item.FileItem? :: exists f | f in files :: IsRecordOf(digest, r, f)) &&
    forall f | f in files :: exists r | r in rows :: IsRecordOf(digest, r, f)
  }

  lemma RecordsDescribe(digest: Bytes -> string, rows: multiset<Row>, files: seq<FileRecord>)
    requires RecordsOf(digest, rows, files)
    ensures DescribesFiles(digest, rows, files)
  {
    forall r | r in rows && r.item.FileItem? ensures exists f | f in files :: IsRecordOf(digest, r, f) {
      assert IsRecordOf(digest, r, RecordOf(digest, r));
    }
    forall f | f in files ensures exists r | r in rows :: IsRecordOf(digest, r, f) {
      var r: Row :| r in rows && r.item.FileItem? && f == RecordOf(digest, r);
      assert IsRecordOf(digest, r, f);
    }
  }

  lemma UniquePrefix(rows: seq<Row>, r: Row)
    requires UniquePaths(multiset(rows + [r]))
    ensures UniquePaths(multiset(rows)) && forall x | x in rows :: x.path != r.path
  {
    assert multiset(rows + [r]) == multiset(rows) + multiset{r};
    forall x | x in rows ensures x.path != r.path {
      assert x in multiset(rows) && x in multiset(rows + [r]) && r in multiset(rows + [r]);
    }
    forall a: Row, b: Row | a in multiset(rows) && b in multiset(rows) && a.path == b.path
      ensures a == b && multiset(rows)[a] == 1
    {
      assert a in multiset(rows + [r]) && b in multiset(rows + [r]);
    }
  }

  lemma {:induction false} RecordsList(digest: Bytes -> string, rows: seq<Row>)
    requires UniquePaths(multiset(rows))
    ensures DistinctPaths(Records(digest, rows)) && RecordsOf(digest, multiset(rows), Records(digest, rows))
  {
    if rows != [] {
      var before, r := rows[..|rows| - 1], rows[|rows| - 1];
      assert rows == before + [r];
      UniquePrefix(before, r);
      RecordsList(digest, before);
      RecordsStep(digest, before, r);
      RecordsOneMore(digest, before, r);
    }
  }

  lemma RecordsOneMore(digest: Bytes -> string, before: seq<Row>, r: Row)
    requires DistinctPaths(Records(digest, before)) && RecordsOf(digest, multiset(before), Records(digest, before))
    requires forall x | x in before :: x.path != r.path
    ensures DistinctPaths(Records(digest, before + [r]))
    ensures RecordsOf(digest, multiset(before + [r]), Records(digest, before + [r]))
  {
    RecordsStep(digest, before, r);
    var fs, rows := Records(digest, before), before + [r];
    assert multiset(rows) == multiset(before) + multiset{r};
    forall f | f in fs ensures f.path != r.path {
      var x: Row :| x in multiset(before) && x.item.FileItem? && f == RecordOf(digest, x);
      assert x in before;
    }
    forall f | f in Records(digest, rows)
      ensures exists x: Row | x in multiset(rows) && x.item.FileItem? :: f == RecordOf(digest, x)
    {
      if f in fs {
        var x: Row :| x in multiset(before) && x.item.FileItem? && f == RecordOf(digest, x);
        assert x in multiset(rows);
      } else {
        assert r in multiset(rows);
      }
    }
  }

  lemma SortedList(digest: Bytes -> string, rows: multiset<Row>, files: seq<FileRecord>)
    requires DistinctPaths(files) && RecordsOf(digest, rows, files)
    ensures IsFileList(digest, rows, SortByKey(files, PathKey()))
  {
    var sorted := SortByKey(files, PathKey());
    SortByKeySorted(files, PathKey());
    forall f ensures f in sorted <==> f in files { SameMultisetSameMembers(sorted, files, f); }
    forall i, j | 0 <= i < j < |sorted| ensures sorted[i].path != sorted[j].path {
      DistinctAfterSort(files, sorted, i, j);
    }
    RecordsDescribe(digest, rows, sorted);
  }

  lemma DistinctAfterSort(files: seq<FileRecord>, sorted: seq<FileRecord>, i: nat, j: nat)
    requires DistinctPaths(files) && multiset(sorted) == multiset(files) && i < j < |sorted|
    ensures sorted[i].path != sorted[j].path
  {
    var a, b := sorted[i], sorted[j];
    SameMultisetSameMembers(sorted, files, a);
    SameMultisetSameMembers(sorted, files, b);
    if a == b {
      assert sorted == sorted[..j] + [b] + sorted[j + 1..];
      assert a in sorted[..j];
      assert multiset(sorted)[a] >= 2;
      OccursOnce(files, a);
    }
  }

  lemma OccursOnce(files: seq<FileRecord>, a: FileRecord)
    requires DistinctPaths(files)
    ensures multiset(files)[a] <= 1
  {
    if files != [] {
      var last := |files| - 1;
      assert files == files[..last] + [files[last]];
      OccursOnce(files[..last], a);
    }
  }

  /** After a successful copy every path found in the source is found in the target, with the same contents. */
  lemma SourceIsInTarget(source: seq<Entry>, nodes: map<string, Item>, names: seq<string>)
    requires ValidEntries(source) && PlainEntries(source) && Holds(nodes, multiset(Rows("", source)))
    requires names != [] && Lookup(source, names).Some?
    ensures Join(names, "/") in nodes && ItemsOf(Lookup(source, names).value) == {nodes[Join(names, "/")]}
  {
    FoundIsPlain(source, names);
    var item :| item in ItemsOf(Lookup(source, names).value);
    FoundIsListed("", source, names, item);
    assert Row(Join(names, "/"), item) in multiset(Rows("", source));
  }

  lemma {:induction false} FoundIsPlain(entries: seq<Entry>, names: seq<string>)
    requires PlainEntries(entries) && names != [] && Lookup(entries, names).Some?
    ensures ItemsOf(Lookup(entries, names).value) != {}
    decreases |names|, |entries|
  {
    assert PlainEntry(entries[0]);
    if entries[0].name != names[0] {
      assert PlainEntries(entries[1..]);
      FoundIsPlain(entries[1..], names);
    } else if |names| > 1 {
      FoundIsPlain(entries[0].node.entries, names[1..]);
    }
  }

  /** And every path of the target is found in the source. */
  lemma TargetIsInSource(source: seq<Entry>, nodes: map<string, Item>, path: string) returns (names: seq<string>)
    requires ValidEntries(source) && Holds(nodes, multiset(Rows("", source))) && path in nodes
    ensures names != [] && path == Join(names, "/")
    ensures Lookup(source, names).Some? && nodes[path] in ItemsOf(Lookup(source, names).value)
  {
    assert Row(path, nodes[path]) in Rows("", source);
    names := ListedIsFound("", source, Row(path, nodes[path]));
  }
}
