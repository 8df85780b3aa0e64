/** The bytes and the order of a fingerprint's stream, and when a tree cannot be read, stated
    without the functions that build them. */
module FingerprintLayout {
  import opened Wrappers
  import opened Ordering
  import opened Framing
  import opened SourceTree
  import opened Fingerprint
  import opened FingerprintStream

  // ----- Bytes -----

  /** A frame shorter than 256 bytes: its length in the last of eight bytes, and then the bytes. */
  function Short(bytes: Bytes): Bytes
    requires |bytes| < 256
  {
    [0, 0, 0, 0, 0, 0, 0, |bytes|] + bytes
  }

  lemma {:induction false} Zeros(width: nat)
    ensures BigEndian(0, width) == seq(width, i => 0)
  {
    if width > 0 {
      Zeros(width - 1);
    }
  }

  lemma SmallLength(n: nat)
    requires n < 256
    ensures U64(n) == [0, 0, 0, 0, 0, 0, 0, n]
  {
    Zeros(7);
    assert n / 256 == 0 && n % 256 == n;
  }

  lemma ShortFrame(bytes: Bytes)
    requires |bytes| < 256
    ensures Frame(bytes) == Short(bytes)
  {
    SmallLength(|bytes|);
  }

  /** The text an entry starts with, the text of each kind, and the separator of a path. */
  lemma Texts(a: Name, b: Name)
    ensures Ascii("input") == [0x69, 0x6e, 0x70, 0x75, 0x74]
    ensures KindTag(FileKind) == [0x66, 0x69, 0x6c, 0x65] && KindTag(TreeKind) == [0x74, 0x72, 0x65, 0x65]
    ensures Join([]) == [] && Join([a]) == a && Join([a, b]) == a + [0x2f] + b
  {
    assert [a, b][1..] == [b];
  }

  lemma AsciiText(text: string)
    requires forall i :: 0 <= i < |text| ==> text[i] < '\U{80}'
    ensures |Ascii(text)| == |text| && forall i :: 0 <= i < |text| ==> Ascii(text)[i] == text[i] as int
  {
    forall i | 0 <= i < |text| ensures Ascii(text)[i] == text[i] as int {
      assert text[i] < '\U{80}';
    }
  }

  /** The version text the stream starts with. */
  lemma DomainText()
    ensures |Domain()| == 31
    ensures forall i :: 0 <= i < 31 ==> Domain()[i] == "ls-lab-declared-build-inputs-v2"[i] as int
  {
    AsciiText("ls-lab-declared-build-inputs-v2");
  }

  /** The stream starts with the version text and the number of entries. */
  lemma StreamHead(records: seq<Record>)
    requires |records| < 256
    ensures |Domain()| == 31
    ensures Stream(records) == Short(Domain()) + ([0, 0, 0, 0, 0, 0, 0, |records|] + Concat(EncodeRecord, records))
  {
    DomainText();
    ShortFrame(Domain());
    SmallLength(|records|);
  }

  /** A declared file: four frames and its contents. */
  lemma FileLayout(named: Bytes, path: RelPath, contents: Bytes)
    requires |named| < 256 && |Join(path)| < 256 && |contents| < 256
    ensures EncodeRecord(Record(named, path, FileKind, [TreeNode([], FileKind, contents)])) ==
      Short([0x69, 0x6e, 0x70, 0x75, 0x74]) + Short([0x66, 0x69, 0x6c, 0x65]) + Short(named) + Short(Join(path))
      + Short(contents)
  {
    Texts([], []);
    ShortFrame([0x69, 0x6e, 0x70, 0x75, 0x74]);
    ShortFrame([0x66, 0x69, 0x6c, 0x65]);
    ShortFrame(named);
    ShortFrame(Join(path));
    ShortFrame(contents);
  }

  /** A declared tree: four frames, the number of its nodes, and the nodes. */
  lemma TreeLayout(named: Bytes, path: RelPath, nodes: seq<TreeNode>)
    requires |named| < 256 && |Join(path)| < 256 && |nodes| < 256
    ensures EncodeRecord(Record(named, path, TreeKind, nodes)) ==
      Short([0x69, 0x6e, 0x70, 0x75, 0x74]) + Short([0x74, 0x72, 0x65, 0x65]) + Short(named) + Short(Join(path))
      + ([0, 0, 0, 0, 0, 0, 0, |nodes|] + Concat(EncodeNode, nodes))
  {
    Texts([], []);
    ShortFrame([0x69, 0x6e, 0x70, 0x75, 0x74]);
    ShortFrame([0x74, 0x72, 0x65, 0x65]);
    ShortFrame(named);
    ShortFrame(Join(path));
    SmallLength(|nodes|);
  }

  /** A node of a tree: a directory is two frames, a file three. */
  lemma NodeLayout(path: RelPath, contents: Bytes)
    requires |Join(path)| < 256 && |contents| < 256
    ensures EncodeNode(TreeNode(path, TreeKind, [])) == Short([0x74, 0x72, 0x65, 0x65]) + Short(Join(path))
    ensures EncodeNode(TreeNode(path, FileKind, contents)) ==
            Short([0x66, 0x69, 0x6c, 0x65]) + Short(Join(path)) + Short(contents)
  {
    Texts([], []);
    ShortFrame([0x66, 0x69, 0x6c, 0x65]);
    ShortFrame([0x74, 0x72, 0x65, 0x65]);
    ShortFrame(Join(path));
    ShortFrame(contents);
  }

  // ----- Order -----

  /** Bytes compare at their first difference, a proper prefix first. */
  ghost predicate BytesFirst(a: Bytes, b: Bytes) {
    a <= b || exists i: nat :: i < |a| && i < |b| && a[..i] == b[..i] && a[i] < b[i]
  }

  /** Paths compare at their first different component, an enclosing path first. */
  ghost predicate PathFirst(a: RelPath, b: RelPath) {
    a <= b || exists i: nat :: i < |a| && i < |b| && a[..i] == b[..i] && a[i] != b[i] && BytesFirst(a[i], b[i])
  }

  lemma NameLeIff(a: Name, b: Name)
    ensures NameLe(a, b) <==> BytesFirst(a, b)
  {
    LexLeIff(ByteLe, a, b);
    if i: nat :| i < |a| && i < |b| && a[..i] == b[..i] && a[i] < b[i] {
      assert DiffersAt(ByteLe, a, b, i);
    }
  }

  lemma PathLeIff(a: RelPath, b: RelPath)
    ensures PathLe(a, b) <==> PathFirst(a, b)
  {
    LexLeIff(NameLe, a, b);
    if i: nat :| DiffersAt(NameLe, a, b, i) {
      NameLeIff(a[i], b[i]);
    }
    if i: nat :| i < |a| && i < |b| && a[..i] == b[..i] && a[i] != b[i] && BytesFirst(a[i], b[i]) {
      NameLeIff(a[i], b[i]);
      assert DiffersAt(NameLe, a, b, i);
    }
  }

  /** The entries of a valid inventory are hashed in strictly ascending order of their labels. */
  lemma LabelsAscend(root: FsNode, inventory: seq<FingerprintInput>, i: nat, j: nat)
    requires ValidInventory(root, inventory) && i < j < |inventory|
    ensures var hashed := SortBy(RecordLe, Records(root, inventory));
      && |hashed| == |inventory|
      && hashed[i].logicalLabel != hashed[j].logicalLabel
      && BytesFirst(hashed[i].logicalLabel, hashed[j].logicalLabel)
  {
    var records := Records(root, inventory);
    var hashed := SortBy(RecordLe, records);
    RecordOrder(root, inventory);
    SortSorted(RecordLe, records);
    SameElements(hashed, records);
    forall a, b | 0 <= a < b < |records| ensures records[a].logicalLabel != records[b].logicalLabel {
      assert inventory[a].logicalLabel != inventory[b].logicalLabel;
    }
    LabelsApart(records, hashed, i, j);
    NameLeIff(hashed[i].logicalLabel, hashed[j].logicalLabel);
  }

  lemma LabelsApart(records: seq<Record>, hashed: seq<Record>, i: nat, j: nat)
    requires multiset(records) == multiset(hashed) && i < j < |hashed|
    requires forall a, b :: 0 <= a < b < |records| ==> records[a].logicalLabel != records[b].logicalLabel
    ensures hashed[i].logicalLabel != hashed[j].logicalLabel
  {
    SameElements(records, hashed);
    assert hashed[i] in hashed && hashed[j] in hashed;
    if hashed[i].logicalLabel == hashed[j].logicalLabel {
      var a :| 0 <= a < |records| && records[a] == hashed[i];
      var b :| 0 <= b < |records| && records[b] == hashed[j];
      assert a == b;
      OccursTwice(hashed, i, j);
      OccursOnce(records, hashed[i]);
      assert false;
    }
  }

  /** The nodes of a tree are hashed in strictly ascending order of their paths. */
  lemma NodesAscend(node: FsNode, i: nat, j: nat)
    requires WellFormed(node) && Canonical(node).Some? && i < j < |Canonical(node).value|
    ensures var nodes := Canonical(node).value;
      nodes[i].relative != nodes[j].relative && PathFirst(nodes[i].relative, nodes[j].relative)
  {
    CanonicalLists(node);
    var nodes := Canonical(node).value;
    assert InList(nodes, nodes[i].relative, (nodes[i].kind, nodes[i].contents));
    assert InList(nodes, nodes[j].relative, (nodes[j].kind, nodes[j].contents));
    PathLeIff(nodes[i].relative, nodes[j].relative);
  }

  // ----- Trees that cannot be read -----

  /** A symbolic link or special node at a path of the tree. */
  ghost predicate Blocked(node: FsNode, path: RelPath) {
    Lookup(node, path) in {Some(Symlink), Some(Special)}
  }

  /** Collecting a tree fails exactly when some path of it is a symbolic link or special node. */
  lemma {:induction false} CollectFailsIff(node: FsNode, relative: RelPath)
    requires WellFormed(node)
    ensures Collect(node, relative).None? <==> exists path :: Blocked(node, path)
    decreases node, 1
  {
    match node
    case RegularFile(_) =>
      assert forall path | Lookup(node, path).Some? :: path == [];
    case Directory(entries) =>
      SortedBelow(node);
      var sorted := SortBy(ByName, entries);
      SameElements(entries, sorted);
      forall k | 0 <= k < |sorted| ensures WellFormed(sorted[k].node) {
        assert sorted[k] in sorted && sorted[k] in entries;
      }
      EntriesFailIff(node, sorted, relative);
      EntryBlocks(node, sorted);
    case _ =>
      assert Blocked(node, []);
  }

  ghost predicate EntryBlocked(entries: seq<DirEntry>, k: int, path: RelPath) {
    0 <= k < |entries| && Blocked(entries[k].node, path)
  }

  lemma {:induction false} EntriesFailIff(parent: FsNode, entries: seq<DirEntry>, relative: RelPath)
    requires forall k :: 0 <= k < |entries| ==> entries[k].node < parent && WellFormed(entries[k].node)
    ensures CollectEntries(parent, entries, relative).None? <==> exists k, path :: EntryBlocked(entries, k, path)
    decreases parent, 0, |entries|
  {
    if entries != [] {
      var n := |entries| - 1;
      EntriesFailIff(parent, entries[..n], relative);
      CollectFailsIff(entries[n].node, relative + [entries[n].name]);
      if k, path :| EntryBlocked(entries[..n], k, path) {
        assert EntryBlocked(entries, k, path);
      }
      if path :| Blocked(entries[n].node, path) {
        assert EntryBlocked(entries, n, path);
      }
      if k, path :| EntryBlocked(entries, k, path) {
        assert k < n ==> EntryBlocked(entries[..n], k, path);
      }
    }
  }

  lemma EntryBlocks(node: FsNode, sorted: seq<DirEntry>)
    requires WellFormed(node) && node.Directory? && multiset(sorted) == multiset(node.entries)
    ensures (exists k, path :: EntryBlocked(sorted, k, path)) <==> exists path :: Blocked(node, path)
  {
    SameElements(sorted, node.entries);
    if k, path :| EntryBlocked(sorted, k, path) {
      assert sorted[k] in sorted;
      FindExact(node.entries, sorted[k].name);
      assert ([sorted[k].name] + path)[1..] == path;
      assert Blocked(node, [sorted[k].name] + path);
    }
    if path :| Blocked(node, path) {
      FindExact(node.entries, path[0]);
      var child := Find(node.entries, path[0]).value;
      assert DirEntry(path[0], child) in sorted;
      var k :| 0 <= k < |sorted| && sorted[k] == DirEntry(path[0], child);
      assert EntryBlocked(sorted, k, path[1..]);
    }
  }
}
