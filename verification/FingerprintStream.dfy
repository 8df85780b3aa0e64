/** The byte stream of the declared-input fingerprint and the watch projection. */
module FingerprintStream {
  import opened Wrappers
  import opened Ordering
  import opened Framing
  import opened Sequences
  import opened SourceTree
  import opened Fingerprint

  // ----- Records -----

  /** One entry as the stream frames it; a file is a tree of one node. */
  datatype Record = Record(logicalLabel: Bytes, path: RelPath, kind: Kind, nodes: seq<TreeNode>)

  function At(root: FsNode, path: RelPath): FsNode {
    match Lookup(root, path) case Some(node) => node case None => Special
  }

  function Reader(root: FsNode): Entry -> Record {
    (entry: Entry) => Record(entry.logicalLabel, entry.path, entry.kind,
                             match Canonical(At(root, entry.path)) case Some(nodes) => nodes case None => [])
  }

  predicate EntryLe(a: Entry, b: Entry) {
    if a.logicalLabel != b.logicalLabel then NameLe(a.logicalLabel, b.logicalLabel)
    else if a.path != b.path then PathLe(a.path, b.path)
    else KindLe(a.kind, b.kind)
  }

  function EntryOf(record: Record): Entry {
    Entry(record.logicalLabel, record.path, record.kind)
  }

  predicate RecordLe(a: Record, b: Record) {
    EntryLe(EntryOf(a), EntryOf(b))
  }

  function Records(root: FsNode, inventory: seq<FingerprintInput>): seq<Record> {
    Map(Reader(root), Entries(inventory))
  }

  // ----- The stream -----

  function Domain(): Bytes {
    Ascii("ls-lab-declared-build-inputs-v2")
  }

  function EncodeNode(node: TreeNode): Bytes {
    Frame(KindTag(node.kind)) + Frame(Join(node.relative)) + NodeTail(node)
  }

  function NodeTail(node: TreeNode): Bytes {
    if node.kind.FileKind? then Frame(node.contents) else []
  }

  function TreeStream(nodes: seq<TreeNode>): Bytes {
    Counted(EncodeNode, nodes)
  }

  function RecordBody(record: Record): Bytes {
    if record.kind.TreeKind? then TreeStream(record.nodes)
    else Frame(if record.nodes == [] then [] else record.nodes[0].contents)
  }

  /** The four frames before an entry's body. */
  function RecordHead(kind: Kind, logicalLabel: Bytes, path: RelPath): Bytes {
    Frame(Ascii("input")) + Frame(KindTag(kind)) + Frame(logicalLabel) + Frame(Join(path))
  }

  function EncodeRecord(record: Record): Bytes {
    RecordHead(record.kind, record.logicalLabel, record.path) + RecordBody(record)
  }

  function Stream(records: seq<Record>): Bytes {
    Frame(Domain()) + Counted(EncodeRecord, records)
  }

  predicate Portable(utf8: Bytes -> bool, path: RelPath) {
    forall i :: 0 <= i < |path| ==> utf8(path[i])
  }

  predicate AllPortable(utf8: Bytes -> bool, nodes: seq<TreeNode>) {
    forall i :: 0 <= i < |nodes| ==> Portable(utf8, nodes[i].relative)
  }

  /** The entry's path is UTF-8, and so are the paths of its tree, which holds no symlink or
      special node. */
  predicate Readable(utf8: Bytes -> bool, root: FsNode, entry: Entry) {
    && (forall name :: name in entry.path ==> utf8(name))
    && Canonical(At(root, entry.path)).Some?
    && forall node, name :: node in Canonical(At(root, entry.path)).value && name in node.relative ==> utf8(name)
  }

  lemma PortableIff(utf8: Bytes -> bool, path: RelPath)
    ensures Portable(utf8, path) <==> forall name :: name in path ==> utf8(name)
  {
  }

  lemma AllPortableIff(utf8: Bytes -> bool, nodes: seq<TreeNode>)
    ensures AllPortable(utf8, nodes) <==> forall node, name :: node in nodes && name in node.relative ==> utf8(name)
  {
    if AllPortable(utf8, nodes) {
      forall node, name | node in nodes && name in node.relative ensures utf8(name) {
        var i :| 0 <= i < |nodes| && nodes[i] == node;
        PortableIff(utf8, nodes[i].relative);
      }
    }
    if forall node, name :: node in nodes && name in node.relative ==> utf8(name) {
      forall i | 0 <= i < |nodes| ensures Portable(utf8, nodes[i].relative) {
        assert nodes[i] in nodes;
        PortableIff(utf8, nodes[i].relative);
      }
    }
  }

  lemma ReadableIff(utf8: Bytes -> bool, root: FsNode, entry: Entry)
    ensures Readable(utf8, root, entry) <==>
      && Portable(utf8, entry.path)
      && Canonical(At(root, entry.path)).Some?
      && AllPortable(utf8, Canonical(At(root, entry.path)).value)
  {
    PortableIff(utf8, entry.path);
    if Canonical(At(root, entry.path)).Some? {
      AllPortableIff(utf8, Canonical(At(root, entry.path)).value);
    }
  }

  ghost predicate Fingerprintable(utf8: Bytes -> bool, root: FsNode, inventory: seq<FingerprintInput>) {
    && ValidInventory(root, inventory)
    && forall i :: 0 <= i < |inventory| ==> Readable(utf8, root, Normalized(inventory[i]))
  }

  ghost function FingerprintStream(root: FsNode, inventory: seq<FingerprintInput>): Bytes {
    Stream(SortBy(RecordLe, Records(root, inventory)))
  }

  // ----- Computing it -----

  method HashNode(hasher: Hasher, node: TreeNode)
    modifies hasher
    ensures hasher.stream == old(hasher.stream) + EncodeNode(node)
  {
    ghost var start := hasher.stream;
    Regroup3(start, Frame(KindTag(node.kind)), Frame(Join(node.relative)), NodeTail(node));
    Regroup2(Frame(KindTag(node.kind)), Frame(Join(node.relative)), NodeTail(node));
    hasher.HashFrame(KindTag(node.kind));
    hasher.HashFrame(Join(node.relative));
    if node.kind.FileKind? {
      hasher.HashFrame(node.contents);
    } else {
      assert hasher.stream + [] == hasher.stream;
    }
  }

  method HashTree(utf8: Bytes -> bool, node: FsNode, hasher: Hasher) returns (ok: bool)
    modifies hasher
    ensures ok <==> Canonical(node).Some? && AllPortable(utf8, Canonical(node).value)
    ensures ok ==> hasher.stream == old(hasher.stream) + TreeStream(Canonical(node).value)
  {
    var collected, found := CollectTreeNodes(node, [], []);
    if !collected {
      return false;
    }
    assert [] + Collect(node, []).value == Collect(node, []).value;
    var nodes := SortBy(NodeLe, found);
    ok := HashNodes(utf8, nodes, hasher);
  }

  lemma AllPortableStep(utf8: Bytes -> bool, nodes: seq<TreeNode>, n: nat)
    requires n < |nodes| && AllPortable(utf8, nodes[..n]) && Portable(utf8, nodes[n].relative)
    ensures AllPortable(utf8, nodes[..n + 1])
  {
    assert nodes[..n + 1] == nodes[..n] + [nodes[n]];
  }

  /** One more node hashed. */
  method HashNext(nodes: seq<TreeNode>, i: nat, ghost start: Bytes, hasher: Hasher)
    requires i < |nodes| && hasher.stream == start + Concat(EncodeNode, nodes[..i])
    modifies hasher
    ensures hasher.stream == start + Concat(EncodeNode, nodes[..i + 1])
  {
    ConcatStep(EncodeNode, start, nodes, i);
    HashNode(hasher, nodes[i]);
  }

  method HashNodes(utf8: Bytes -> bool, nodes: seq<TreeNode>, hasher: Hasher) returns (ok: bool)
    modifies hasher
    ensures ok <==> AllPortable(utf8, nodes)
    ensures ok ==> hasher.stream == old(hasher.stream) + TreeStream(nodes)
  {
    Regroup2(hasher.stream, U64(|nodes|), Concat(EncodeNode, nodes));
    hasher.HashU64(|nodes|);
    ghost var start := hasher.stream;
    for i := 0 to |nodes|
      invariant AllPortable(utf8, nodes[..i])
      invariant hasher.stream == start + Concat(EncodeNode, nodes[..i])
    {
      if !Portable(utf8, nodes[i].relative) {
        return false;
      }
      AllPortableStep(utf8, nodes, i);
      HashNext(nodes, i, start, hasher);
    }
    assert nodes[..|nodes|] == nodes;
    ok := true;
  }

  lemma FileRecord(root: FsNode, entry: Entry)
    requires At(root, entry.path).RegularFile?
    ensures Canonical(At(root, entry.path)) == Some([TreeNode([], FileKind, At(root, entry.path).bytes)])
  {
    var nodes := [TreeNode([], FileKind, At(root, entry.path).bytes)];
    assert SortBy(NodeLe, nodes) == nodes by {
      assert nodes[1..] == [];
    }
  }

  method HashHead(entry: Entry, hasher: Hasher)
    modifies hasher
    ensures hasher.stream == old(hasher.stream) + RecordHead(entry.kind, entry.logicalLabel, entry.path)
  {
    ghost var input, kind, named, path :=
      Frame(Ascii("input")), Frame(KindTag(entry.kind)), Frame(entry.logicalLabel), Frame(Join(entry.path));
    Regroup3(hasher.stream + input, kind, named, path);
    Regroup2(hasher.stream, input, kind + (named + path));
    Regroup3(input, kind, named, path);
    hasher.HashFrame(Ascii("input"));
    hasher.HashFrame(KindTag(entry.kind));
    hasher.HashFrame(entry.logicalLabel);
    hasher.HashFrame(Join(entry.path));
  }

  method HashEntry(utf8: Bytes -> bool, root: FsNode, entry: Entry, hasher: Hasher) returns (ok: bool)
    requires KindMatches(entry.kind, At(root, entry.path))
    modifies hasher
    ensures ok <==> Readable(utf8, root, entry)
    ensures ok ==> hasher.stream == old(hasher.stream) + EncodeRecord(Reader(root)(entry))
  {
    var node := At(root, entry.path);
    ReadableIff(utf8, root, entry);
    if !Portable(utf8, entry.path) {
      return false;
    }
    Regroup2(hasher.stream, RecordHead(entry.kind, entry.logicalLabel, entry.path), RecordBody(Reader(root)(entry)));
    HashHead(entry, hasher);
    match entry.kind
    case FileKind =>
      FileRecord(root, entry);
      hasher.HashFrame(node.bytes);
      ok := true;
    case TreeKind =>
      ok := HashTree(utf8, node, hasher);
  }

  lemma SortRecords(root: FsNode, entries: seq<Entry>)
    ensures Map(Reader(root), SortBy(EntryLe, entries)) == SortBy(RecordLe, Map(Reader(root), entries))
  {
    SortMap(Reader(root), EntryLe, RecordLe, entries);
  }

  predicate AllMatch(root: FsNode, entries: seq<Entry>) {
    forall i :: 0 <= i < |entries| ==> KindMatches(entries[i].kind, At(root, entries[i].path))
  }

  predicate AllReadable(utf8: Bytes -> bool, root: FsNode, entries: seq<Entry>) {
    forall i :: 0 <= i < |entries| ==> Readable(utf8, root, entries[i])
  }

  lemma AllReadableStep(utf8: Bytes -> bool, root: FsNode, entries: seq<Entry>, n: nat)
    requires n < |entries|
    ensures AllReadable(utf8, root, entries[..n + 1]) <==>
        AllReadable(utf8, root, entries[..n]) && Readable(utf8, root, entries[n])
    ensures AllReadable(utf8, root, entries) ==> AllReadable(utf8, root, entries[..n + 1])
  {
    var readable := (entry: Entry) => Readable(utf8, root, entry);
    AllReadableHolds(utf8, root, entries, readable);
    AllReadableHolds(utf8, root, entries[..n], readable);
    AllReadableHolds(utf8, root, entries[..n + 1], readable);
    EveryStep(readable, entries, n);
  }

  lemma AllReadableHolds(utf8: Bytes -> bool, root: FsNode, entries: seq<Entry>, readable: Entry -> bool)
    requires forall entry :: readable(entry) == Readable(utf8, root, entry)
    ensures AllReadable(utf8, root, entries) <==> Every(readable, entries)
  {
  }

  method HashEntries(utf8: Bytes -> bool, root: FsNode, entries: seq<Entry>, hasher: Hasher) returns (ok: bool)
    requires AllMatch(root, entries)
    modifies hasher
    ensures ok <==> AllReadable(utf8, root, entries)
    ensures ok ==> hasher.stream == old(hasher.stream) + Counted(EncodeRecord, Map(Reader(root), entries))
  {
    ghost var records := Map(Reader(root), entries);
    Regroup2(hasher.stream, U64(|records|), Concat(EncodeRecord, records));
    hasher.HashU64(|entries|);
    ghost var start := hasher.stream;
    for i := 0 to |entries|
      invariant AllReadable(utf8, root, entries[..i])
      invariant hasher.stream == start + Concat(EncodeRecord, records[..i])
    {
      AllReadableStep(utf8, root, entries, i);
      ConcatStep(EncodeRecord, start, records, i);
      ok := HashEntry(utf8, root, entries[i], hasher);
      if !ok {
        return;
      }
    }
    assert records[..|records|] == records && entries[..|entries|] == entries;
    ok := true;
  }

  lemma SortedEntries(utf8: Bytes -> bool, root: FsNode, inventory: seq<FingerprintInput>)
    requires ValidInventory(root, inventory)
    ensures var entries := SortBy(EntryLe, Entries(inventory));
      AllMatch(root, entries) && (Fingerprintable(utf8, root, inventory) <==> AllReadable(utf8, root, entries))
  {
    var entries := SortBy(EntryLe, Entries(inventory));
    SameElements(entries, Entries(inventory));
    forall i | 0 <= i < |entries| ensures KindMatches(entries[i].kind, At(root, entries[i].path)) {
      assert entries[i] in entries;
      EntryPresent(root, inventory, entries[i]);
    }
    if Fingerprintable(utf8, root, inventory) {
      forall i | 0 <= i < |entries| ensures Readable(utf8, root, entries[i]) {
        assert entries[i] in entries;
        EntryReadable(utf8, root, inventory, entries[i]);
      }
    }
    if AllReadable(utf8, root, entries) {
      forall k | 0 <= k < |inventory| ensures Readable(utf8, root, Normalized(inventory[k])) {
        assert Entries(inventory)[k] in entries;
      }
    }
  }

  /** Succeeds exactly on a valid, readable inventory, having hashed its fingerprint stream. */
  method ComputeFromInventory(utf8: Bytes -> bool, root: FsNode, inventory: seq<FingerprintInput>)
    returns (preimage: Option<Bytes>)
    ensures preimage.Some? <==> Fingerprintable(utf8, root, inventory)
    ensures preimage.Some? ==> preimage.value == FingerprintStream(root, inventory)
  {
    var validated := ValidateInventory(root, inventory);
    if validated.Err? {
      return None;
    }
    var entries := SortBy(EntryLe, validated.value);
    SortedEntries(utf8, root, inventory);
    SortRecords(root, validated.value);
    var hasher := new Hasher();
    hasher.HashFrame(Domain());
    assert [] + Frame(Domain()) == Frame(Domain());
    var ok := HashEntries(utf8, root, entries, hasher);
    return if ok then Some(hasher.stream) else None;
  }

  lemma EntryPresent(root: FsNode, inventory: seq<FingerprintInput>, entry: Entry)
    requires ValidInventory(root, inventory) && entry in Entries(inventory)
    ensures Lookup(root, entry.path).Some? && KindMatches(entry.kind, At(root, entry.path))
  {
    var k :| 0 <= k < |inventory| && Entries(inventory)[k] == entry;
    assert Present(root, inventory[k]);
  }

  // ----- Lossless framing -----

  lemma {:induction false} LookupWellFormed(node: FsNode, path: RelPath)
    requires WellFormed(node) && Lookup(node, path).Some?
    ensures WellFormed(Lookup(node, path).value) && ValidPath(path)
    decreases |path|
  {
    if path != [] {
      FindExact(node.entries, path[0]);
      var child := Find(node.entries, path[0]).value;
      var i :| 0 <= i < |node.entries| && node.entries[i] == DirEntry(path[0], child);
      LookupWellFormed(child, path[1..]);
      assert path == [path[0]] + path[1..];
    }
  }

  /** A node whose lengths fit their 64-bit prefixes. */
  predicate NodeFits(node: TreeNode) {
    |Join(node.relative)| < TWO_TO_64 && |node.contents| < TWO_TO_64
  }

  predicate RecordFits(record: Record) {
    && |record.logicalLabel| < TWO_TO_64 && |Join(record.path)| < TWO_TO_64 && |record.nodes| < TWO_TO_64
    && forall i :: 0 <= i < |record.nodes| ==> NodeFits(record.nodes[i])
  }

  ghost predicate Fits(root: FsNode, inventory: seq<FingerprintInput>) {
    |inventory| < TWO_TO_64 && forall i :: 0 <= i < |inventory| ==> RecordFits(Records(root, inventory)[i])
  }

  predicate ProperNode(node: TreeNode) {
    NodeFits(node) && ValidPath(node.relative) && (node.kind.TreeKind? ==> node.contents == [])
  }

  ghost predicate ProperRecord(record: Record) {
    && RecordFits(record) && ValidPath(record.path)
    && (forall i :: 0 <= i < |record.nodes| ==> ProperNode(record.nodes[i]))
    && (record.kind.FileKind? ==> exists bytes :: record.nodes == [TreeNode([], FileKind, bytes)])
  }

  lemma KindCancels(a: Kind, b: Kind, x: Bytes, y: Bytes)
    requires Frame(KindTag(a)) + x == Frame(KindTag(b)) + y
    ensures a == b && x == y
  {
    FrameCancels(KindTag(a), KindTag(b), x, y);
    assert KindTag(FileKind)[0] == 102 && KindTag(TreeKind)[0] == 116;
  }

  lemma PathCancels(a: RelPath, b: RelPath, x: Bytes, y: Bytes)
    requires ValidPath(a) && ValidPath(b) && |Join(a)| < TWO_TO_64 && |Join(b)| < TWO_TO_64
    requires Frame(Join(a)) + x == Frame(Join(b)) + y
    ensures a == b && x == y
  {
    FrameCancels(Join(a), Join(b), x, y);
    JoinInjective(a, b);
  }

  lemma NodeCancels(a: TreeNode, b: TreeNode, x: Bytes, y: Bytes)
    requires ProperNode(a) && ProperNode(b) && EncodeNode(a) + x == EncodeNode(b) + y
    ensures a == b && x == y
  {
    var tailA, tailB := NodeTail(a) + x, NodeTail(b) + y;
    Regroup3(Frame(KindTag(a.kind)), Frame(Join(a.relative)), NodeTail(a), x);
    Regroup3(Frame(KindTag(b.kind)), Frame(Join(b.relative)), NodeTail(b), y);
    KindCancels(a.kind, b.kind, Frame(Join(a.relative)) + tailA, Frame(Join(b.relative)) + tailB);
    PathCancels(a.relative, b.relative, tailA, tailB);
    TailCancels(a, b, x, y);
  }

  lemma TailCancels(a: TreeNode, b: TreeNode, x: Bytes, y: Bytes)
    requires ProperNode(a) && ProperNode(b) && a.kind == b.kind && NodeTail(a) + x == NodeTail(b) + y
    ensures a.contents == b.contents && x == y
  {
    if a.kind.FileKind? {
      FrameCancels(a.contents, b.contents, x, y);
    } else {
      assert [] + x == x && [] + y == y;
    }
  }

  lemma NodePrefixFree()
    ensures PrefixFree(EncodeNode, ProperNode)
  {
    forall a, b, x: Bytes, y: Bytes | ProperNode(a) && ProperNode(b) && EncodeNode(a) + x == EncodeNode(b) + y
      ensures a == b && x == y
    {
      NodeCancels(a, b, x, y);
    }
  }

  lemma BodyCancels(a: Record, b: Record, x: Bytes, y: Bytes)
    requires ProperRecord(a) && ProperRecord(b) && a.kind == b.kind && RecordBody(a) + x == RecordBody(b) + y
    ensures a.nodes == b.nodes && x == y
  {
    if a.kind.TreeKind? {
      NodePrefixFree();
      CountedCancels(EncodeNode, ProperNode, a.nodes, b.nodes, x, y);
    } else {
      assert NodeFits(a.nodes[0]) && NodeFits(b.nodes[0]);
      FrameCancels(a.nodes[0].contents, b.nodes[0].contents, x, y);
    }
  }

  lemma RecordCancels(a: Record, b: Record, x: Bytes, y: Bytes)
    requires ProperRecord(a) && ProperRecord(b) && EncodeRecord(a) + x == EncodeRecord(b) + y
    ensures a == b && x == y
  {
    var bodyA, bodyB := RecordBody(a) + x, RecordBody(b) + y;
    var pathA, pathB := Frame(Join(a.path)) + bodyA, Frame(Join(b.path)) + bodyB;
    var labelA, labelB := Frame(a.logicalLabel) + pathA, Frame(b.logicalLabel) + pathB;
    var input := Ascii("input");
    Regroup5(Frame(input), Frame(KindTag(a.kind)), Frame(a.logicalLabel), Frame(Join(a.path)), RecordBody(a), x);
    Regroup5(Frame(input), Frame(KindTag(b.kind)), Frame(b.logicalLabel), Frame(Join(b.path)), RecordBody(b), y);
    FrameCancels(input, input, Frame(KindTag(a.kind)) + labelA, Frame(KindTag(b.kind)) + labelB);
    KindCancels(a.kind, b.kind, labelA, labelB);
    FrameCancels(a.logicalLabel, b.logicalLabel, pathA, pathB);
    PathCancels(a.path, b.path, bodyA, bodyB);
    BodyCancels(a, b, x, y);
  }

  /** Streams of proper records are equal only for equal records. */
  lemma StreamInjective(a: seq<Record>, b: seq<Record>)
    requires |a| < TWO_TO_64 && |b| < TWO_TO_64
    requires (forall i :: 0 <= i < |a| ==> ProperRecord(a[i])) && (forall i :: 0 <= i < |b| ==> ProperRecord(b[i]))
    requires Stream(a) == Stream(b)
    ensures a == b
  {
    var proper := (r: Record) => ProperRecord(r);
    forall r, s, x: Bytes, y: Bytes | proper(r) && proper(s) && EncodeRecord(r) + x == EncodeRecord(s) + y
      ensures r == s && x == y
    {
      RecordCancels(r, s, x, y);
    }
    var x, y := Counted(EncodeRecord, a), Counted(EncodeRecord, b);
    SamePrefix(Frame(Domain()), x, y);
    assert x + [] == x && y + [] == y;
    CountedCancels(EncodeRecord, proper, a, b, [], []);
  }

  // ----- The theorem -----

  /** The same entries are declared, over the same files and trees. */
  ghost predicate SameInputs(rootA: FsNode, a: seq<FingerprintInput>, rootB: FsNode, b: seq<FingerprintInput>) {
    && (forall entry :: entry in Entries(a) <==> entry in Entries(b))
    && forall entry :: entry in Entries(a) ==> SameTree(At(rootA, entry.path), At(rootB, entry.path))
  }

  lemma RecordProper(utf8: Bytes -> bool, root: FsNode, inventory: seq<FingerprintInput>, i: nat)
    requires WellFormed(root) && Fingerprintable(utf8, root, inventory) && Fits(root, inventory) && i < |inventory|
    ensures ProperRecord(Records(root, inventory)[i])
  {
    var record := Records(root, inventory)[i];
    var entry := Normalized(inventory[i]);
    assert Present(root, inventory[i]) && Readable(utf8, root, entry);
    assert RecordFits(record);
    LookupWellFormed(root, entry.path);
    var node := At(root, entry.path);
    CanonicalLists(node);
    forall k | 0 <= k < |record.nodes| ensures ProperNode(record.nodes[k]) {
      var n := record.nodes[k];
      assert InList(record.nodes, n.relative, (n.kind, n.contents));
      assert Summary(node, n.relative) == Some((n.kind, n.contents));
      LookupWellFormed(node, n.relative);
      assert NodeFits(n);
    }
    if record.kind.FileKind? {
      FileRecord(root, entry);
    }
  }

  lemma EntryOrder()
    ensures TotalOrder(EntryLe)
  {
    PathOrder();
  }

  lemma RecordOrder(root: FsNode, inventory: seq<FingerprintInput>)
    requires ValidInventory(root, inventory)
    ensures var records := Records(root, inventory);
      Comparable(RecordLe, records) && Antisymmetric(RecordLe, records) && NoDuplicates(records)
  {
    var records := Records(root, inventory);
    EntryOrder();
    forall i, j | 0 <= i < j < |records| ensures EntryOf(records[i]) != EntryOf(records[j]) {
      assert inventory[i].logicalLabel != inventory[j].logicalLabel;
    }
    forall a, b | a in records && b in records && RecordLe(a, b) && RecordLe(b, a) ensures a == b {
      assert EntryOf(a) == EntryOf(b);
    }
  }

  lemma RecordAgree(utf8: Bytes -> bool, rootA: FsNode, a: seq<FingerprintInput>, rootB: FsNode,
        b: seq<FingerprintInput>, entry: Entry)
    requires WellFormed(rootA) && WellFormed(rootB)
    requires Fingerprintable(utf8, rootA, a) && Fingerprintable(utf8, rootB, b)
    requires entry in Entries(a) && entry in Entries(b)
    ensures Reader(rootA)(entry) == Reader(rootB)(entry) <==> SameTree(At(rootA, entry.path), At(rootB, entry.path))
  {
    EntryPresent(rootA, a, entry);
    EntryPresent(rootB, b, entry);
    EntryReadable(utf8, rootA, a, entry);
    EntryReadable(utf8, rootB, b, entry);
    LookupWellFormed(rootA, entry.path);
    LookupWellFormed(rootB, entry.path);
    CanonicalIff(At(rootA, entry.path), At(rootB, entry.path));
  }

  lemma EntryReadable(utf8: Bytes -> bool, root: FsNode, inventory: seq<FingerprintInput>, entry: Entry)
    requires Fingerprintable(utf8, root, inventory) && entry in Entries(inventory)
    ensures Readable(utf8, root, entry)
  {
    var k :| 0 <= k < |inventory| && Entries(inventory)[k] == entry;
    assert Readable(utf8, root, Normalized(inventory[k]));
  }

  /** A record tells its entry. */
  lemma RecordMembers(root: FsNode, inventory: seq<FingerprintInput>, entry: Entry)
    ensures entry in Entries(inventory) <==> Reader(root)(entry) in Records(root, inventory)
  {
    var entries := Entries(inventory);
    if entry in entries {
      var k :| 0 <= k < |entries| && entries[k] == entry;
      assert Records(root, inventory)[k] == Reader(root)(entry);
    }
    if Reader(root)(entry) in Records(root, inventory) {
      var k :| 0 <= k < |entries| && Records(root, inventory)[k] == Reader(root)(entry);
      assert entries[k] == entry;
    }
  }

  lemma SameInputsSameStream(utf8: Bytes -> bool, rootA: FsNode, a: seq<FingerprintInput>, rootB: FsNode,
        b: seq<FingerprintInput>)
    requires WellFormed(rootA) && WellFormed(rootB)
    requires Fingerprintable(utf8, rootA, a) && Fingerprintable(utf8, rootB, b)
    requires SameInputs(rootA, a, rootB, b)
    ensures FingerprintStream(rootA, a) == FingerprintStream(rootB, b)
  {
    var x, y := Records(rootA, a), Records(rootB, b);
    forall entry ensures Reader(rootA)(entry) in x <==> Reader(rootB)(entry) in y {
      RecordMembers(rootA, a, entry);
      RecordMembers(rootB, b, entry);
    }
    forall k | 0 <= k < |x| ensures x[k] in y {
      var entry := Entries(a)[k];
      assert entry in Entries(a);
      RecordAgree(utf8, rootA, a, rootB, b, entry);
      assert x[k] == Reader(rootA)(entry);
    }
    forall k | 0 <= k < |y| ensures y[k] in x {
      var entry := Entries(b)[k];
      assert entry in Entries(b);
      RecordAgree(utf8, rootA, a, rootB, b, entry);
      assert y[k] == Reader(rootB)(entry);
    }
    RecordOrder(rootA, a);
    RecordOrder(rootB, b);
    SameMembers(x, y);
    SortForgetsOrder(RecordLe, x, y);
  }

  lemma SameStreamSameRecords(utf8: Bytes -> bool, rootA: FsNode, a: seq<FingerprintInput>, rootB: FsNode,
        b: seq<FingerprintInput>)
    requires WellFormed(rootA) && WellFormed(rootB)
    requires Fingerprintable(utf8, rootA, a) && Fingerprintable(utf8, rootB, b)
    requires Fits(rootA, a) && Fits(rootB, b)
    requires FingerprintStream(rootA, a) == FingerprintStream(rootB, b)
    ensures forall record :: record in Records(rootA, a) <==> record in Records(rootB, b)
  {
    SortedProper(utf8, rootA, a);
    SortedProper(utf8, rootB, b);
    var x, y := SortBy(RecordLe, Records(rootA, a)), SortBy(RecordLe, Records(rootB, b));
    StreamInjective(x, y);
    SameElements(x, Records(rootA, a));
    SameElements(y, Records(rootB, b));
  }

  lemma SortedProper(utf8: Bytes -> bool, root: FsNode, inventory: seq<FingerprintInput>)
    requires WellFormed(root) && Fingerprintable(utf8, root, inventory) && Fits(root, inventory)
    ensures var sorted := SortBy(RecordLe, Records(root, inventory));
      |sorted| < TWO_TO_64 && forall i :: 0 <= i < |sorted| ==> ProperRecord(sorted[i])
  {
    var records := Records(root, inventory);
    var sorted := SortBy(RecordLe, records);
    SameElements(sorted, records);
    forall i | 0 <= i < |sorted| ensures ProperRecord(sorted[i]) {
      assert sorted[i] in sorted;
      var k :| 0 <= k < |records| && records[k] == sorted[i];
      RecordProper(utf8, root, inventory, k);
    }
  }

  /** The fingerprint's preimage is order-free and injective: two fingerprintable inventories
      have one stream exactly when they declare the same (kind, label, path) entries over the
      same files and trees. */
  lemma FingerprintIff(utf8: Bytes -> bool, rootA: FsNode, a: seq<FingerprintInput>, rootB: FsNode,
        b: seq<FingerprintInput>)
    requires WellFormed(rootA) && WellFormed(rootB)
    requires Fingerprintable(utf8, rootA, a) && Fingerprintable(utf8, rootB, b)
    requires Fits(rootA, a) && Fits(rootB, b)
    ensures FingerprintStream(rootA, a) == FingerprintStream(rootB, b) <==> SameInputs(rootA, a, rootB, b)
  {
    if SameInputs(rootA, a, rootB, b) {
      SameInputsSameStream(utf8, rootA, a, rootB, b);
    }
    if FingerprintStream(rootA, a) == FingerprintStream(rootB, b) {
      SameStreamSameRecords(utf8, rootA, a, rootB, b);
      SameRecordsSameInputs(utf8, rootA, a, rootB, b);
    }
  }

  lemma SameRecordsSameInputs(utf8: Bytes -> bool, rootA: FsNode, a: seq<FingerprintInput>, rootB: FsNode,
        b: seq<FingerprintInput>)
    requires WellFormed(rootA) && WellFormed(rootB)
    requires Fingerprintable(utf8, rootA, a) && Fingerprintable(utf8, rootB, b)
    requires forall record :: record in Records(rootA, a) <==> record in Records(rootB, b)
    ensures SameInputs(rootA, a, rootB, b)
  {
    forall entry
      ensures entry in Entries(a) <==> entry in Entries(b)
      ensures entry in Entries(a) ==> SameTree(At(rootA, entry.path), At(rootB, entry.path))
    {
      RecordMembers(rootA, a, entry);
      RecordMembers(rootB, b, entry);
      RecordOf(rootA, rootB, b, entry);
      RecordOf(rootB, rootA, a, entry);
      if entry in Entries(a) {
        RecordAgree(utf8, rootA, a, rootB, b, entry);
      }
    }
  }

  /** A record of `entry` among the records of another inventory is that inventory's own. */
  lemma RecordOf(root: FsNode, other: FsNode, inventory: seq<FingerprintInput>, entry: Entry)
    ensures Reader(root)(entry) in Records(other, inventory) ==>
      entry in Entries(inventory) && Reader(root)(entry) == Reader(other)(entry)
  {
    var entries := Entries(inventory);
    if Reader(root)(entry) in Records(other, inventory) {
      var k :| 0 <= k < |entries| && Records(other, inventory)[k] == Reader(root)(entry);
      assert entries[k] == entry;
    }
  }

  // ----- The watch projection -----

  /** A path the fingerprint reads for one entry: a file or directory of its record. */
  ghost predicate Walks(root: FsNode, entry: Entry, path: RelPath) {
    exists node :: node in Reader(root)(entry).nodes && path == entry.path + node.relative
  }

  ghost predicate Digested(root: FsNode, entries: seq<Entry>, path: RelPath) {
    exists i :: 0 <= i < |entries| && Walks(root, entries[i], path)
  }

  /** The places, from the root, of one entry's nodes. */
  function Places(at: RelPath, nodes: seq<TreeNode>): (r: seq<RelPath>)
    ensures |r| == |nodes| && forall k :: 0 <= k < |nodes| ==> r[k] == at + nodes[k].relative
  {
    seq(|nodes|, k requires 0 <= k < |nodes| => at + nodes[k].relative)
  }

  /** The places of an entry's collected tree are the places of its record. */
  lemma CollectedPlaces(root: FsNode, entry: Entry, nodes: seq<TreeNode>, path: RelPath)
    requires Collect(At(root, entry.path), []) == Some(nodes)
    ensures path in Places(entry.path, nodes) <==> Walks(root, entry, path)
  {
    SameElements(nodes, Reader(root)(entry).nodes);
    if path in Places(entry.path, nodes) {
      var k :| 0 <= k < |nodes| && Places(entry.path, nodes)[k] == path;
      assert nodes[k] in Reader(root)(entry).nodes;
    }
    if Walks(root, entry, path) {
      var node :| node in Reader(root)(entry).nodes && path == entry.path + node.relative;
      var k :| 0 <= k < |nodes| && nodes[k] == node;
      assert Places(entry.path, nodes)[k] == path;
    }
  }

  lemma DigestedIsAny(root: FsNode, entries: seq<Entry>, path: RelPath, walks: Entry -> bool)
    requires forall entry :: walks(entry) == Walks(root, entry, path)
    ensures Digested(root, entries, path) <==> Any(walks, entries)
  {
  }

  lemma DigestedNext(root: FsNode, entries: seq<Entry>, n: nat, path: RelPath)
    requires n < |entries|
    ensures Digested(root, entries[..n + 1], path) <==>
        Digested(root, entries[..n], path) || Walks(root, entries[n], path)
  {
    ghost var walks := (entry: Entry) => Walks(root, entry, path);
    DigestedIsAny(root, entries[..n + 1], path, walks);
    DigestedIsAny(root, entries[..n], path, walks);
    AnyStep(walks, entries, n);
  }

  lemma PlacesDistinct(node: FsNode, at: RelPath)
    requires WellFormed(node) && Collect(node, []).Some?
    ensures NoDuplicates(Places(at, Collect(node, []).value))
  {
    var nodes := Collect(node, []).value;
    CollectLists(node, []);
    forall i, j | 0 <= i < j < |nodes| ensures at + nodes[i].relative != at + nodes[j].relative {
      SamePlace(at, nodes[i].relative, nodes[j].relative);
    }
  }

  /** What an entry's walk visits lies at or below it, and at it if the entry is a file. */
  lemma DigestedCovered(root: FsNode, entry: Entry, path: RelPath)
    requires KindMatches(entry.kind, At(root, entry.path)) && Walks(root, entry, path)
    ensures path == entry.path || (entry.kind.TreeKind? && entry.path <= path)
  {
    if entry.kind.FileKind? {
      FileRecord(root, entry);
      assert entry.path + [] == entry.path;
    }
  }

  /** Two entries of a valid inventory share no walked path. */
  lemma WalksDisjoint(root: FsNode, inventory: seq<FingerprintInput>, i: nat, j: nat, path: RelPath)
    requires ValidInventory(root, inventory) && i < j < |inventory|
    ensures !(Walks(root, Entries(inventory)[i], path) && Walks(root, Entries(inventory)[j], path))
  {
    var a, b := Entries(inventory)[i], Entries(inventory)[j];
    assert a == Normalized(inventory[i]) && b == Normalized(inventory[j]);
    assert a.path != b.path && !Overlap(a, b);
    EntryPresent(root, inventory, a);
    EntryPresent(root, inventory, b);
    if Walks(root, a, path) && Walks(root, b, path) {
      DigestedCovered(root, a, path);
      DigestedCovered(root, b, path);
      PrefixesCompare(a.path, b.path, path);
    }
  }

  lemma DisjointAppend<T(!new)>(a: seq<T>, b: seq<T>)
    requires NoDuplicates(a) && NoDuplicates(b) && forall x :: !(x in a && x in b)
    ensures NoDuplicates(a + b)
  {
    forall i, j | 0 <= i < j < |a + b| ensures (a + b)[i] != (a + b)[j] {
      if i < |a| <= j {
        assert a[i] in a && b[j - |a|] in b;
      }
    }
  }

  ghost predicate AllCollect(root: FsNode, inventory: seq<FingerprintInput>) {
    forall i :: 0 <= i < |inventory| ==> Collect(At(root, Normalized(inventory[i]).path), []).Some?
  }

  /** The nodes one entry's watches name. */
  method EntryNodes(root: FsNode, entry: Entry) returns (ok: bool, nodes: seq<TreeNode>)
    requires KindMatches(entry.kind, At(root, entry.path))
    ensures ok <==> Collect(At(root, entry.path), []).Some?
    ensures ok ==> nodes == Collect(At(root, entry.path), []).value
  {
    match entry.kind
    case FileKind =>
      return true, [TreeNode([], FileKind, At(root, entry.path).bytes)];
    case TreeKind =>
      ok, nodes := CollectTreeNodes(At(root, entry.path), [], []);
      if ok {
        assert [] + Collect(At(root, entry.path), []).value == Collect(At(root, entry.path), []).value;
      }
  }

  /** The watches are exactly the paths the fingerprint reads, each once, in path order. */
  method WatchPaths(root: FsNode, inventory: seq<FingerprintInput>) returns (watches: Option<seq<RelPath>>)
    requires WellFormed(root)
    ensures watches.Some? <==> ValidInventory(root, inventory) && AllCollect(root, inventory)
    ensures watches.Some? ==> SortedBy(PathLe, watches.value) && NoDuplicates(watches.value)
    ensures watches.Some? ==> forall path :: path in watches.value <==> Digested(root, Entries(inventory), path)
  {
    var validated := ValidateInventory(root, inventory);
    if validated.Err? {
      return None;
    }
    var entries := validated.value;
    var paths: seq<RelPath> := [];
    for i := 0 to |entries|
      invariant forall k :: 0 <= k < i ==> Collect(At(root, Normalized(inventory[k]).path), []).Some?
      invariant NoDuplicates(paths)
      invariant forall path :: path in paths <==> Digested(root, entries[..i], path)
    {
      var entry := entries[i];
      EntryPresent(root, inventory, entry);
      var ok, nodes := EntryNodes(root, entry);
      if !ok {
        return None;
      }
      OneMoreWalk(root, inventory, i, paths, nodes);
      paths := paths + Places(entry.path, nodes);
    }
    assert entries[..|entries|] == entries;
    SortPaths(paths);
    return Some(SortBy(PathLe, paths));
  }

  lemma OneMoreWalk(root: FsNode, inventory: seq<FingerprintInput>, n: nat, paths: seq<RelPath>, nodes: seq<TreeNode>)
    requires WellFormed(root) && ValidInventory(root, inventory) && n < |inventory|
    requires Collect(At(root, Entries(inventory)[n].path), []) == Some(nodes)
    requires NoDuplicates(paths) && forall path :: path in paths <==> Digested(root, Entries(inventory)[..n], path)
    ensures var now := paths + Places(Entries(inventory)[n].path, nodes);
      NoDuplicates(now) && forall path :: path in now <==> Digested(root, Entries(inventory)[..n + 1], path)
  {
    var entries := Entries(inventory);
    var entry := entries[n];
    var places := Places(entry.path, nodes);
    assert entry in entries;
    EntryPresent(root, inventory, entry);
    LookupWellFormed(root, entry.path);
    PlacesDistinct(At(root, entry.path), entry.path);
    forall path
      ensures !(path in paths && path in places)
      ensures path in paths + places <==> Digested(root, entries[..n + 1], path)
    {
      CollectedPlaces(root, entry, nodes, path);
      DigestedNext(root, entries, n, path);
      if i :| 0 <= i < n && Walks(root, entries[..n][i], path) {
        WalksDisjoint(root, inventory, i, n, path);
      }
    }
    DisjointAppend(paths, places);
  }

  lemma SortPaths(paths: seq<RelPath>)
    requires NoDuplicates(paths)
    ensures var sorted := SortBy(PathLe, paths);
      SortedBy(PathLe, sorted) && NoDuplicates(sorted) && forall path :: path in sorted <==> path in paths
  {
    var sorted := SortBy(PathLe, paths);
    PathOrder();
    SortSorted(PathLe, paths);
    SameElements(sorted, paths);
    forall i, j | 0 <= i < j < |sorted| ensures sorted[i] != sorted[j] {
      if sorted[i] == sorted[j] {
        OccursTwice(sorted, i, j);
        OccursOnce(paths, sorted[i]);
        assert false;
      }
    }
  }
}
