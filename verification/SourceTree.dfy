/** Directory trees, their traversal, and the canonical list of nodes a tree digest frames.
    Names are bytes. */
module SourceTree {
  import opened Wrappers
  import opened Ordering
  import opened Framing
  import opened Sequences

  type Name = Bytes
  type RelPath = seq<Name>

  const SLASH: byte := 0x2f

  datatype Kind = FileKind | TreeKind

  function Ascii(s: string): Bytes {
    seq(|s|, i requires 0 <= i < |s| => s[i] as int % 256)
  }

  function KindTag(kind: Kind): Bytes {
    match kind case FileKind => Ascii("file") case TreeKind => Ascii("tree")
  }

  // ----- Orders -----

  predicate ByteLe(x: byte, y: byte) {
    x <= y
  }

  predicate NameLe(a: Name, b: Name) {
    LexLe(ByteLe, a, b)
  }

  /** Paths compare component by component. */
  predicate PathLe(a: RelPath, b: RelPath) {
    LexLe(NameLe, a, b)
  }

  lemma PathOrder()
    ensures TotalOrder(NameLe) && TotalOrder(PathLe)
  {
    LexTotalOrder(ByteLe);
    var lexName := (a: seq<byte>, b: seq<byte>) => LexLe(ByteLe, a, b);
    assert forall a, b :: NameLe(a, b) == lexName(a, b);
    LexTotalOrder(NameLe);
    var lexPath := (a: seq<Name>, b: seq<Name>) => LexLe(NameLe, a, b);
    assert forall a, b :: PathLe(a, b) == lexPath(a, b);
  }

  predicate KindLe(a: Kind, b: Kind) {
    a.FileKind? || b.TreeKind?
  }

  // ----- Directory trees -----

  datatype FsNode = RegularFile(bytes: Bytes) | Directory(entries: seq<DirEntry>) | Symlink | Special

  /** Entries are in the order the directory is read, which is arbitrary. */
  datatype DirEntry = DirEntry(name: Name, node: FsNode)

  /** A name a directory can list. */
  predicate ValidName(name: Name) {
    name != [] && SLASH !in name
  }

  ghost predicate DistinctNames(entries: seq<DirEntry>) {
    forall i, j :: 0 <= i < j < |entries| ==> entries[i].name != entries[j].name
  }

  ghost predicate WellFormed(node: FsNode) {
    node.Directory? ==>
      && DistinctNames(node.entries)
      && forall i :: 0 <= i < |node.entries| ==> ValidName(node.entries[i].name) && WellFormed(node.entries[i].node)
  }

  function Find(entries: seq<DirEntry>, name: Name): Option<FsNode> {
    if entries == [] then None
    else if entries[0].name == name then Some(entries[0].node)
    else Find(entries[1..], name)
  }

  function Lookup(node: FsNode, path: RelPath): Option<FsNode>
    decreases |path|
  {
    if path == [] then Some(node)
    else if !node.Directory? then None
    else
      match Find(node.entries, path[0])
      case None => None
      case Some(child) => Lookup(child, path[1..])
  }

  /** What lies at a path of a tree, whatever order its directories are read in: a directory,
      or a file with its contents. */
  function Summary(node: FsNode, path: RelPath): Option<(Kind, Bytes)> {
    match Lookup(node, path)
    case Some(RegularFile(bytes)) => Some((FileKind, bytes))
    case Some(Directory(_)) => Some((TreeKind, []))
    case _ => None
  }

  ghost predicate SameTree(a: FsNode, b: FsNode) {
    forall path :: Summary(a, path) == Summary(b, path)
  }

  // ----- Collecting a tree -----

  datatype TreeNode = TreeNode(relative: RelPath, kind: Kind, contents: Bytes)

  predicate ByName(a: DirEntry, b: DirEntry) {
    NameLe(a.name, b.name)
  }

  lemma SortedBelow(node: FsNode)
    requires node.Directory?
    ensures |SortBy(ByName, node.entries)| == |node.entries|
    ensures forall k :: 0 <= k < |node.entries| ==> SortBy(ByName, node.entries)[k].node < node
  {
    var sorted := SortBy(ByName, node.entries);
    SameElements(node.entries, sorted);
    forall k | 0 <= k < |sorted| ensures sorted[k].node < node {
      assert sorted[k] in sorted && sorted[k] in node.entries;
    }
  }

  /** The directories and files of a tree, or None if it holds a symlink or special node. */
  function Collect(node: FsNode, relative: RelPath): Option<seq<TreeNode>>
    decreases node, 1, 0
  {
    match node
    case RegularFile(bytes) => Some([TreeNode(relative, FileKind, bytes)])
    case Directory(entries) =>
      SortedBelow(node);
      (match CollectEntries(node, SortBy(ByName, entries), relative)
       case None => None
       case Some(nodes) => Some([TreeNode(relative, TreeKind, [])] + nodes))
    case _ => None
  }

  function CollectEntries(parent: FsNode, entries: seq<DirEntry>, relative: RelPath): Option<seq<TreeNode>>
    requires forall k :: 0 <= k < |entries| ==> entries[k].node < parent
    decreases parent, 0, |entries|
  {
    if entries == [] then Some([])
    else
      var last := entries[|entries| - 1];
      match CollectEntries(parent, entries[..|entries| - 1], relative)
      case None => None
      case Some(before) =>
        match Collect(last.node, relative + [last.name])
        case None => None
        case Some(nodes) => Some(before + nodes)
  }

  lemma CollectNext(parent: FsNode, entries: seq<DirEntry>, relative: RelPath, n: nat)
    requires (forall k :: 0 <= k < |entries| ==> entries[k].node < parent) && n < |entries|
    requires CollectEntries(parent, entries[..n], relative).Some?
    ensures var next := Collect(entries[n].node, relative + [entries[n].name]);
      CollectEntries(parent, entries[..n + 1], relative) ==
      if next.None? then None else Some(CollectEntries(parent, entries[..n], relative).value + next.value)
  {
    assert entries[..n + 1][..n] == entries[..n];
  }

  /** Appends the nodes of the tree below `relative`, depth first; false on a symlink or
      special node. */
  method CollectTreeNodes(node: FsNode, relative: RelPath, nodes: seq<TreeNode>)
    returns (ok: bool, collected: seq<TreeNode>)
    ensures ok <==> Collect(node, relative).Some?
    ensures ok ==> collected == nodes + Collect(node, relative).value
    decreases node, 1
  {
    match node
    case RegularFile(bytes) =>
      return true, nodes + [TreeNode(relative, FileKind, bytes)];
    case Directory(entries) =>
      SortedBelow(node);
      var sorted := SortBy(ByName, entries);
      CollectDirectory(node, relative, nodes);
      ok, collected := CollectChildren(node, sorted, relative, nodes + [TreeNode(relative, TreeKind, [])]);
    case _ =>
      return false, nodes;
  }

  lemma CollectDirectory(node: FsNode, relative: RelPath, nodes: seq<TreeNode>)
    requires node.Directory? && |SortBy(ByName, node.entries)| == |node.entries|
    requires forall k :: 0 <= k < |node.entries| ==> SortBy(ByName, node.entries)[k].node < node
    ensures var children := CollectEntries(node, SortBy(ByName, node.entries), relative);
      && (Collect(node, relative).Some? <==> children.Some?)
      && (children.Some? ==>
            nodes + [TreeNode(relative, TreeKind, [])] + children.value == nodes + Collect(node, relative).value)
  {
  }

  /** The loop over the sorted entries of one directory. */
  method CollectChildren(parent: FsNode, entries: seq<DirEntry>, relative: RelPath, nodes: seq<TreeNode>)
    returns (ok: bool, collected: seq<TreeNode>)
    requires forall k :: 0 <= k < |entries| ==> entries[k].node < parent
    ensures ok <==> CollectEntries(parent, entries, relative).Some?
    ensures ok ==> collected == nodes + CollectEntries(parent, entries, relative).value
    decreases parent, 0
  {
    collected := nodes;
    ghost var done: seq<TreeNode> := [];
    for i := 0 to |entries|
      invariant CollectEntries(parent, entries[..i], relative) == Some(done)
      invariant collected == nodes + done
    {
      CollectNext(parent, entries, relative, i);
      var place := relative + [entries[i].name];
      ok, collected := CollectTreeNodes(entries[i].node, place, collected);
      if !ok {
        CollectFails(parent, entries, relative, i + 1);
        return;
      }
      ghost var more := Collect(entries[i].node, place).value;
      Regroup2(nodes, done, more);
      done := done + more;
    }
    assert entries[..|entries|] == entries;
    ok := true;
  }

  lemma {:induction false} CollectFails(parent: FsNode, entries: seq<DirEntry>, relative: RelPath, n: nat)
    requires forall k :: 0 <= k < |entries| ==> entries[k].node < parent
    requires n <= |entries| && CollectEntries(parent, entries[..n], relative).None?
    ensures CollectEntries(parent, entries, relative).None?
    decreases |entries|
  {
    if n < |entries| {
      var front := entries[..|entries| - 1];
      assert front[..n] == entries[..n];
      CollectFails(parent, front, relative, n);
    } else {
      assert entries[..n] == entries;
    }
  }

  // ----- What a collection contains -----

  /** `node` at the path `at` of the collected list. */
  predicate InList(nodes: seq<TreeNode>, at: RelPath, what: (Kind, Bytes)) {
    TreeNode(at, what.0, what.1) in nodes
  }

  ghost predicate DistinctPaths(nodes: seq<TreeNode>) {
    forall i, j :: 0 <= i < j < |nodes| ==> nodes[i].relative != nodes[j].relative
  }

  predicate Below(nodes: seq<TreeNode>, relative: RelPath) {
    forall i :: 0 <= i < |nodes| ==> relative <= nodes[i].relative
  }

  /** The list holds each node of the tree once, at its path below `relative`. */
  ghost predicate Lists(nodes: seq<TreeNode>, node: FsNode, relative: RelPath) {
    && DistinctPaths(nodes) && Below(nodes, relative)
    && forall path, what :: InList(nodes, relative + path, what) <==> Summary(node, path) == Some(what)
  }

  /** What lies below one of several entries. */
  function SummaryIn(entries: seq<DirEntry>, path: RelPath): Option<(Kind, Bytes)> {
    if path == [] then None
    else match Find(entries, path[0])
      case None => None
      case Some(child) => Summary(child, path[1..])
  }

  ghost predicate ListsEntries(nodes: seq<TreeNode>, entries: seq<DirEntry>, relative: RelPath) {
    && DistinctPaths(nodes) && Below(nodes, relative)
    && forall path, what :: InList(nodes, relative + path, what) <==> SummaryIn(entries, path) == Some(what)
  }

  lemma {:induction false} FindExact(entries: seq<DirEntry>, name: Name)
    requires DistinctNames(entries)
    ensures Find(entries, name).Some? ==> DirEntry(name, Find(entries, name).value) in entries
    ensures forall e :: e in entries && e.name == name ==> Find(entries, name) == Some(e.node)
  {
    if entries != [] {
      assert entries == [entries[0]] + entries[1..];
      FindExact(entries[1..], name);
      if entries[0].name == name {
        forall e | e in entries && e.name == name ensures e == entries[0] {
        }
      }
    }
  }

  /** Finding a name does not depend on the order of the entries. */
  lemma FindForgetsOrder(a: seq<DirEntry>, b: seq<DirEntry>, name: Name)
    requires DistinctNames(a) && DistinctNames(b) && multiset(a) == multiset(b)
    ensures Find(a, name) == Find(b, name)
  {
    SameElements(a, b);
    FindExact(a, name);
    FindExact(b, name);
  }

  lemma {:induction false} FindLast(entries: seq<DirEntry>, name: Name)
    requires entries != [] && DistinctNames(entries)
    ensures var n := |entries| - 1;
      Find(entries, name) == if name == entries[n].name then Some(entries[n].node) else Find(entries[..n], name)
  {
    var n := |entries| - 1;
    FindExact(entries, name);
    FindExact(entries[..n], name);
    assert forall e :: e in entries[..n] ==> e in entries;
    assert entries[n] in entries;
    if name != entries[n].name && Find(entries, name).Some? {
      var e := DirEntry(name, Find(entries, name).value);
      var i :| 0 <= i < |entries| && entries[i] == e;
      assert entries[..n][i] == e;
    }
  }

  lemma {:induction false} CollectLists(node: FsNode, relative: RelPath)
    requires WellFormed(node) && Collect(node, relative).Some?
    ensures Lists(Collect(node, relative).value, node, relative)
    decreases node, 1, 0
  {
    var nodes := Collect(node, relative).value;
    if node.Directory? {
      var sorted := SortBy(ByName, node.entries);
      SortedBelow(node);
      SortedWellFormed(node);
      EntriesList(node, sorted, relative);
      DirectoryLists(node, sorted, CollectEntries(node, sorted, relative).value, relative);
    } else {
      forall path, what ensures InList(nodes, relative + path, what) <==> Summary(node, path) == Some(what) {
        SamePlace(relative, [], path);
      }
    }
  }

  /** Paths below one place are equal exactly when their ends are. */
  lemma SamePlace(relative: RelPath, a: RelPath, b: RelPath)
    ensures relative + a == relative + b <==> a == b
    ensures relative + [] == relative
  {
    assert (relative + a)[|relative|..] == a && (relative + b)[|relative|..] == b;
  }

  lemma SortedWellFormed(node: FsNode)
    requires node.Directory? && WellFormed(node)
    ensures var sorted := SortBy(ByName, node.entries);
      DistinctNames(sorted) && forall i :: 0 <= i < |sorted| ==> ValidName(sorted[i].name) && WellFormed(sorted[i].node)
  {
    var entries := node.entries;
    var sorted := SortBy(ByName, entries);
    SameElements(entries, sorted);
    assert NoDuplicates(entries);
    forall i | 0 <= i < |sorted| ensures ValidName(sorted[i].name) && WellFormed(sorted[i].node) {
      assert sorted[i] in sorted && sorted[i] in entries;
    }
    forall i, j | 0 <= i < j < |sorted| ensures sorted[i].name != sorted[j].name {
      if sorted[i].name == sorted[j].name {
        assert sorted[i] in sorted && sorted[j] in sorted;
        assert sorted[i] in entries && sorted[j] in entries;
        assert sorted[i] == sorted[j];
        OccursTwice(sorted, i, j);
        OccursOnce(entries, sorted[i]);
        assert false;
      }
    }
  }

  lemma OccursTwice<T(!new)>(s: seq<T>, i: nat, j: nat)
    requires i < j < |s| && s[i] == s[j]
    ensures multiset(s)[s[i]] >= 2
  {
    assert s == s[..j] + s[j..];
    assert s[..j][i] in multiset(s[..j]) && s[j..][0] in multiset(s[j..]);
  }

  lemma NotListed(nodes: seq<TreeNode>, at: RelPath)
    requires forall what :: !InList(nodes, at, what)
    ensures forall i :: 0 <= i < |nodes| ==> nodes[i].relative != at
  {
    forall i | 0 <= i < |nodes| ensures nodes[i].relative != at {
      assert InList(nodes, nodes[i].relative, (nodes[i].kind, nodes[i].contents));
    }
  }

  lemma PrefixHead(relative: RelPath, name: Name, path: RelPath)
    ensures relative + [name] <= relative + path <==> path != [] && path[0] == name
  {
    if path != [] {
      assert (relative + path)[|relative|] == path[0] && (relative + [name])[|relative|] == name;
      assert (relative + path)[..|relative| + 1] == relative + [path[0]];
    }
  }

  lemma DirectoryLists(node: FsNode, sorted: seq<DirEntry>, rest: seq<TreeNode>, relative: RelPath)
    requires node.Directory? && WellFormed(node) && DistinctNames(sorted) && multiset(sorted) == multiset(node.entries)
    requires ListsEntries(rest, sorted, relative)
    ensures Lists([TreeNode(relative, TreeKind, [])] + rest, node, relative)
  {
    var nodes := [TreeNode(relative, TreeKind, [])] + rest;
    SamePlace(relative, [], []);
    forall what ensures !InList(rest, relative, what) {
      assert InList(rest, relative + [], what) <==> SummaryIn(sorted, []) == Some(what);
    }
    NotListed(rest, relative);
    forall path, what ensures InList(nodes, relative + path, what) <==> Summary(node, path) == Some(what) {
      SamePlace(relative, [], path);
      assert InList(rest, relative + path, what) <==> SummaryIn(sorted, path) == Some(what);
      if path != [] {
        FindForgetsOrder(node.entries, sorted, path[0]);
      }
    }
  }

  lemma {:induction false} EntriesList(parent: FsNode, entries: seq<DirEntry>, relative: RelPath)
    requires forall k :: 0 <= k < |entries| ==> entries[k].node < parent
    requires DistinctNames(entries) && forall k :: 0 <= k < |entries| ==> WellFormed(entries[k].node)
    requires CollectEntries(parent, entries, relative).Some?
    ensures ListsEntries(CollectEntries(parent, entries, relative).value, entries, relative)
    decreases parent, 0, |entries|
  {
    if entries != [] {
      var last := entries[|entries| - 1];
      EntriesList(parent, entries[..|entries| - 1], relative);
      CollectLists(last.node, relative + [last.name]);
      OneMoreEntry(entries, CollectEntries(parent, entries[..|entries| - 1], relative).value,
                   Collect(last.node, relative + [last.name]).value, relative);
    }
  }

  lemma OneMoreEntry(entries: seq<DirEntry>, before: seq<TreeNode>, nodes: seq<TreeNode>, relative: RelPath)
    requires entries != [] && DistinctNames(entries)
    requires ListsEntries(before, entries[..|entries| - 1], relative)
    requires Lists(nodes, entries[|entries| - 1].node, relative + [entries[|entries| - 1].name])
    ensures ListsEntries(before + nodes, entries, relative)
  {
    var n := |entries| - 1;
    var front, name := entries[..n], entries[n].name;
    var place := relative + [name];
    FindExact(front, name);
    assert Find(front, name).None?;
    forall i | 0 <= i < |nodes| ensures place <= nodes[i].relative && relative <= nodes[i].relative {
      assert place[..|relative|] == relative;
    }
    forall j | 0 <= j < |nodes| ensures forall i :: 0 <= i < |before| ==> before[i].relative != nodes[j].relative {
      var path := nodes[j].relative[|relative|..];
      assert relative + path == nodes[j].relative;
      PrefixHead(relative, name, path);
      forall what ensures !InList(before, relative + path, what) {
        assert InList(before, relative + path, what) <==> SummaryIn(front, path) == Some(what);
      }
      NotListed(before, nodes[j].relative);
    }
    forall path, what
      ensures InList(before + nodes, relative + path, what) <==> SummaryIn(entries, path) == Some(what)
    {
      assert InList(before, relative + path, what) <==> SummaryIn(front, path) == Some(what);
      PrefixHead(relative, name, path);
      if path != [] && path[0] == name {
        assert relative + path == place + path[1..];
        assert InList(nodes, place + path[1..], what) <==> Summary(entries[n].node, path[1..]) == Some(what);
      }
      if path != [] {
        FindLast(entries, path[0]);
      }
    }
  }

  // ----- The canonical list -----

  predicate NodeLe(a: TreeNode, b: TreeNode) {
    if a.relative == b.relative then KindLe(a.kind, b.kind) else PathLe(a.relative, b.relative)
  }

  /** The nodes of a tree in the order the digest frames them. */
  function Canonical(node: FsNode): Option<seq<TreeNode>> {
    match Collect(node, [])
    case None => None
    case Some(nodes) => Some(SortBy(NodeLe, nodes))
  }

  lemma NodeOrder(nodes: seq<TreeNode>)
    requires DistinctPaths(nodes)
    ensures Comparable(NodeLe, nodes) && Antisymmetric(NodeLe, nodes) && NoDuplicates(nodes)
  {
    PathOrder();
    forall a, b | a in nodes && b in nodes && NodeLe(a, b) && NodeLe(b, a) ensures a == b {
      assert a.relative == b.relative;
    }
  }

  /** The canonical list holds exactly the tree's nodes, each once, in path order. */
  lemma CanonicalLists(node: FsNode)
    requires WellFormed(node) && Canonical(node).Some?
    ensures var nodes := Canonical(node).value;
      && (forall path, what :: InList(nodes, path, what) <==> Summary(node, path) == Some(what))
      && NoDuplicates(nodes) && SortedBy(NodeLe, nodes)
  {
    var nodes := Collect(node, []).value;
    var sorted := Canonical(node).value;
    CollectLists(node, []);
    NodeOrder(nodes);
    SortSorted(NodeLe, nodes);
    SameElements(nodes, sorted);
    forall path, what ensures InList(sorted, path, what) <==> Summary(node, path) == Some(what) {
      assert [] + path == path;
      assert InList(nodes, [] + path, what) <==> Summary(node, path) == Some(what);
    }
    forall i, j | 0 <= i < j < |sorted| ensures sorted[i] != sorted[j] {
      if sorted[i] == sorted[j] {
        OccursTwice(sorted, i, j);
        OccursOnce(nodes, sorted[i]);
        assert false;
      }
    }
  }

  /** The list holds exactly the tree's nodes. */
  ghost predicate ListsTree(nodes: seq<TreeNode>, node: FsNode) {
    forall path, what :: InList(nodes, path, what) <==> Summary(node, path) == Some(what)
  }

  lemma SameListed(a: FsNode, b: FsNode, x: seq<TreeNode>, y: seq<TreeNode>, n: TreeNode)
    requires ListsTree(x, a) && ListsTree(y, b) && SameTree(a, b)
    ensures n in x <==> n in y
  {
    assert InList(x, n.relative, (n.kind, n.contents)) <==> n in x;
    assert InList(y, n.relative, (n.kind, n.contents)) <==> n in y;
    assert Summary(a, n.relative) == Summary(b, n.relative);
  }

  lemma CanonicalAntisymmetric(node: FsNode)
    requires WellFormed(node) && Canonical(node).Some?
    ensures Antisymmetric(NodeLe, Canonical(node).value)
  {
    var nodes := Collect(node, []).value;
    CollectLists(node, []);
    NodeOrder(nodes);
    SameElements(Canonical(node).value, nodes);
  }

  lemma CanonicalSame(a: FsNode, b: FsNode)
    requires WellFormed(a) && WellFormed(b) && Canonical(a).Some? && Canonical(b).Some? && SameTree(a, b)
    ensures Canonical(a) == Canonical(b)
  {
    var x, y := Canonical(a).value, Canonical(b).value;
    CanonicalLists(a);
    CanonicalLists(b);
    forall n ensures n in x <==> n in y {
      SameListed(a, b, x, y, n);
    }
    SameMembers(x, y);
    CanonicalAntisymmetric(a);
    SortedUnique(NodeLe, x, y);
  }

  /** Two trees have one canonical list exactly when they hold the same directories and files
      with the same contents, whatever order their directories are read in. */
  lemma CanonicalIff(a: FsNode, b: FsNode)
    requires WellFormed(a) && WellFormed(b) && Canonical(a).Some? && Canonical(b).Some?
    ensures Canonical(a) == Canonical(b) <==> SameTree(a, b)
  {
    if Canonical(a) == Canonical(b) {
      CanonicalLists(a);
      CanonicalLists(b);
      forall path ensures Summary(a, path) == Summary(b, path) {
        SameSummary(a, b, Canonical(a).value, path);
      }
    }
    if SameTree(a, b) {
      CanonicalSame(a, b);
    }
  }

  lemma SameSummary(a: FsNode, b: FsNode, nodes: seq<TreeNode>, path: RelPath)
    requires forall what :: InList(nodes, path, what) <==> Summary(a, path) == Some(what)
    requires forall what :: InList(nodes, path, what) <==> Summary(b, path) == Some(what)
    ensures Summary(a, path) == Summary(b, path)
  {
    if Summary(a, path).Some? {
      assert InList(nodes, path, Summary(a, path).value);
    } else if Summary(b, path).Some? {
      assert InList(nodes, path, Summary(b, path).value);
    }
  }

  /** Reading a directory in another order reads the same tree. */
  lemma ReadOrderFree(a: seq<DirEntry>, b: seq<DirEntry>)
    requires DistinctNames(a) && DistinctNames(b) && multiset(a) == multiset(b)
    ensures SameTree(Directory(a), Directory(b))
  {
    forall path ensures Summary(Directory(a), path) == Summary(Directory(b), path) {
      if path != [] {
        FindForgetsOrder(a, b, path[0]);
      }
    }
  }

  // ----- Portable paths -----

  /** The components joined by slashes. */
  function Join(path: RelPath): Bytes {
    if path == [] then []
    else if |path| == 1 then path[0]
    else path[0] + [SLASH] + Join(path[1..])
  }

  predicate ValidPath(path: RelPath) {
    forall i :: 0 <= i < |path| ==> ValidName(path[i])
  }

  /** The bytes before the first slash. */
  function FirstPart(s: Bytes): Bytes {
    if s == [] || s[0] == SLASH then [] else [s[0]] + FirstPart(s[1..])
  }

  lemma {:induction false} FirstPartOf(name: Bytes, rest: Bytes)
    requires SLASH !in name && (rest == [] || rest[0] == SLASH)
    ensures FirstPart(name + rest) == name
  {
    if name == [] {
      assert name + rest == rest;
    } else {
      FirstPartOf(name[1..], rest);
      assert (name + rest)[1..] == name[1..] + rest;
    }
  }

  /** Joining loses nothing. */
  lemma {:induction false} JoinInjective(a: RelPath, b: RelPath)
    requires ValidPath(a) && ValidPath(b) && Join(a) == Join(b)
    ensures a == b
  {
    if a != [] && b != [] {
      JoinSplits(a);
      JoinSplits(b);
      var restA, restB := Join(a)[|a[0]|..], Join(b)[|b[0]|..];
      assert a[0] == b[0];
      if |a| > 1 && |b| > 1 {
        assert restA[1..] == Join(a[1..]) && restB[1..] == Join(b[1..]);
        JoinInjective(a[1..], b[1..]);
        assert a == [a[0]] + a[1..] && b == [b[0]] + b[1..];
      }
    } else {
      JoinSplits(a);
      JoinSplits(b);
    }
  }

  lemma JoinSplits(a: RelPath)
    requires ValidPath(a)
    ensures a == [] <==> Join(a) == []
    ensures a != [] ==> FirstPart(Join(a)) == a[0] && |a[0]| <= |Join(a)|
    ensures |a| == 1 ==> Join(a)[|a[0]|..] == []
    ensures |a| > 1 ==> Join(a)[|a[0]|..] == [SLASH] + Join(a[1..])
  {
    if a != [] {
      var rest := if |a| == 1 then [] else [SLASH] + Join(a[1..]);
      assert Join(a) == a[0] + rest;
      FirstPartOf(a[0], rest);
      assert (a[0] + rest)[|a[0]|..] == rest;
    }
  }
}
