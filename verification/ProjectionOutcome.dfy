/** The names, the removals and the report of a projection set, stated on their own terms. */
module ProjectionOutcome {
  import opened Wrappers
  import opened Ordering
  import opened Projection
  import opened ProjectionSafety

  // ----- Names -----

  /** The directory of a file, the directories above it, and the sibling it is replaced through. */
  lemma NamesOf(dir: string, name: string)
    requires '/' !in name
    ensures Parent(dir + "/" + name) == dir && Parent(name) == ""
    ensures TempPath(dir + "/" + name) == dir + "/." + name + ".repository-engineering.tmp"
    ensures TempPath(name) == "." + name + ".repository-engineering.tmp"
  {
    PrefixOf(dir + "/", name);
    PrefixOf("", name);
    assert "" + name == name;
    assert dir + "/" + "." == dir + "/.";
    assert "" + "." == ".";
  }

  lemma {:induction false} PrefixOf(prefix: string, name: string)
    requires '/' !in name && (prefix == "" || prefix[|prefix| - 1] == '/')
    ensures DirPrefix(prefix + name) == prefix
  {
    var path := prefix + name;
    if name == "" {
      assert path == prefix;
    } else {
      assert path[..|path| - 1] == prefix + name[..|name| - 1];
      assert path[|path| - 1] == name[|name| - 1] && name[|name| - 1] in name;
      PrefixOf(prefix, name[..|name| - 1]);
    }
  }

  lemma AncestorIff(path: string, a: string)
    ensures a in Ancestors(path) <==> a != "" && a + "/" <= path
  {
    if a + "/" <= path {
      assert path[..|a|] == a && path[|a|] == '/';
    }
  }

  /** Two paths differ after their last slash at most. */
  ghost predicate SameDirectory(p: string, q: string) {
    exists k: nat :: ApartFrom(p, q, k)
  }

  ghost predicate ApartFrom(p: string, q: string, k: nat) {
    && k <= |p| && k <= |q| && p[..k] == q[..k] && (k == 0 || p[k - 1] == '/')
    && '/' !in p[k..] && '/' !in q[k..]
  }

  lemma TailIff(path: string, k: nat)
    requires k <= |path|
    ensures '/' !in path[k..] <==> forall i :: k <= i < |path| ==> path[i] != '/'
  {
    assert forall i :: k <= i < |path| ==> path[k..][i - k] == path[i];
  }

  lemma SplitAt(path: string, k: nat)
    requires k <= |path| && '/' !in path[k..] && (k == 0 || path[k - 1] == '/')
    ensures DirPrefix(path) == path[..k]
  {
    PrefixOf(path[..k], path[k..]);
    assert path == path[..k] + path[k..];
  }

  lemma ApartIff(p: string, q: string)
    ensures DirPrefix(p) == DirPrefix(q) <==> SameDirectory(p, q)
  {
    if DirPrefix(p) == DirPrefix(q) {
      var k := |DirPrefix(p)|;
      TailIff(p, k);
      TailIff(q, k);
      assert ApartFrom(p, q, k);
    }
    if k: nat :| ApartFrom(p, q, k) {
      SplitAt(p, k);
      SplitAt(q, k);
    }
  }

  lemma SameParentIff(p: string, q: string)
    requires ValidRelativePath(p) && ValidRelativePath(q)
    ensures Parent(p) == Parent(q) <==> SameDirectory(p, q)
  {
    FilledPrefix(p);
    FilledPrefix(q);
    ApartIff(p, q);
  }

  lemma FilledPrefix(path: string)
    requires ValidRelativePath(path)
    ensures DirPrefix(path) == if Parent(path) == "" then "" else Parent(path) + "/"
  {
    var prefix := DirPrefix(path);
    assert !SegmentEnd(path, 0);
    if prefix != "" {
      assert prefix == prefix[..|prefix| - 1] + "/";
    }
  }

  // ----- Removals -----

  /** The file on disk a manifest entry stands for may go: the new set keeps the path, or has a
      path in the same directory and nothing but a file is in the way. */
  ghost predicate MayGo(fs: FileSystem, path: string, artifacts: seq<Artifact>) {
    && ValidRelativePath(path)
    && ((exists a :: a in artifacts && a.path == path) ||
        ((exists a :: a in artifacts && SameDirectory(a.path, path)) && (path in fs ==> fs[path].File?)))
  }

  lemma RemovableIff(fs: FileSystem, path: string, artifacts: seq<Artifact>)
    requires Acceptable(artifacts)
    ensures Removable(fs, path, artifacts) <==> MayGo(fs, path, artifacts)
  {
    if ValidRelativePath(path) {
      forall i | 0 <= i < |artifacts|
        ensures Parent(artifacts[i].path) == Parent(path) <==> SameDirectory(artifacts[i].path, path)
      {
        SameParentIff(artifacts[i].path, path);
      }
      assert forall i :: 0 <= i < |artifacts| ==> artifacts[i] in artifacts;
    }
  }

  lemma {:induction false} RemovalsSucceed(fs: FileSystem, entries: seq<ManifestEntry>, artifacts: seq<Artifact>)
    ensures RemoveEntries(fs, entries, artifacts).1.None? <==>
            forall i :: 0 <= i < |entries| ==> Removable(fs, entries[i].path, artifacts)
  {
    if entries != [] {
      var n := |entries| - 1;
      RemovalsSucceed(fs, entries[..n], artifacts);
      RemoveEntriesEffect(fs, entries[..n], artifacts, entries[n].path);
      assert forall i :: 0 <= i < n ==> entries[..n][i] == entries[i];
    }
    RemoveEntriesEffect(fs, entries, artifacts, "");
  }

  /** The manifest on disk is readable: a file of at most 8 MiB that decodes to at most ten
      thousand entries of the current version. */
  predicate ReadsAs(codec: Codec, fs: FileSystem, entries: seq<ManifestEntry>) {
    match At(fs, ".repository-engineering/generated-set.json")
    case Some(File(bytes)) => |bytes| <= 8_388_608 && |entries| <= 10_000
                              && codec.decode(bytes) == Some(Manifest("v0", entries))
    case _ => entries == []
  }

  lemma ReadsAsIff(codec: Codec, fs: FileSystem, entries: seq<ManifestEntry>)
    ensures PreviousEntries(codec, fs) == Ok(entries) <==> ReadsAs(codec, fs, entries)
  {
  }

  /** The removal of obsolete artifacts succeeds exactly when the manifest on disk can be read
      and each of its entries may go, and then removes those the new set does not keep and
      nothing else. */
  lemma RemovalSucceedsIff(codec: Codec, fs: FileSystem, artifacts: seq<Artifact>, path: string)
    requires Acceptable(artifacts)
    ensures var (after, error) := RemoveObsolete(codec, fs, artifacts);
      && (error.None? <==> exists entries: seq<ManifestEntry> ::
            ReadsAs(codec, fs, entries) && forall i :: 0 <= i < |entries| ==> MayGo(fs, entries[i].path, artifacts))
      && forall entries: seq<ManifestEntry> :: error.None? && ReadsAs(codec, fs, entries) ==>
           At(after, path) ==
             if (exists e :: e in entries && e.path == path) && !(exists a :: a in artifacts && a.path == path)
             then None else At(fs, path)
  {
    forall entries ensures PreviousEntries(codec, fs) == Ok(entries) <==> ReadsAs(codec, fs, entries) {
      ReadsAsIff(codec, fs, entries);
    }
    if PreviousEntries(codec, fs).Ok? {
      var entries := PreviousEntries(codec, fs).value;
      RemovalsSucceed(fs, entries, artifacts);
      RemoveEntriesEffect(fs, entries, artifacts, path);
      forall i | 0 <= i < |entries|
        ensures Removable(fs, entries[i].path, artifacts) <==> MayGo(fs, entries[i].path, artifacts)
      {
        RemovableIff(fs, entries[i].path, artifacts);
      }
      assert Listed(entries, path) <==> exists e :: e in entries && e.path == path;
      assert HasPath(artifacts, path) <==> exists a :: a in artifacts && a.path == path;
    }
  }

  // ----- Reports -----

  /** The manifest that describes a set: each path with the digest and the length of its bytes. */
  predicate Describes(codec: Codec, manifest: Manifest, artifacts: seq<Artifact>) {
    && manifest.schemaVersion == "v0" && |manifest.entries| == |artifacts|
    && forall i :: 0 <= i < |artifacts| ==>
         manifest.entries[i] ==
           ManifestEntry(artifacts[i].path, codec.digest(artifacts[i].bytes), |artifacts[i].bytes|)
  }

  lemma DescribesIff(codec: Codec, manifest: Manifest, artifacts: seq<Artifact>)
    ensures Describes(codec, manifest, artifacts) <==> manifest == ManifestOf(codec, artifacts)
  {
    if Describes(codec, manifest, artifacts) {
      assert manifest.entries == ManifestOf(codec, artifacts).entries;
    }
  }

  /** What a check should find at one of its artifacts. */
  predicate ArtifactFault(fs: FileSystem, artifact: Artifact, finding: Finding) {
    finding.path == artifact.path &&
    match At(fs, artifact.path)
    case Some(File(bytes)) => bytes != artifact.bytes && finding.code == "generated.artifact.stale"
    case _ => finding.code == "generated.artifact.missing"
  }

  predicate DescribedBy(codec: Codec, fs: FileSystem, artifacts: seq<Artifact>, m: Manifest) {
    && Describes(codec, m, artifacts)
    && At(fs, ".repository-engineering/generated-set.json") == Some(File(codec.encode(m)))
  }

  /** What a check should find: an artifact without a file or with other bytes, a manifest that
      does not describe the set, or a path the manifest lists and the set lacks. */
  ghost predicate Fault(codec: Codec, fs: FileSystem, artifacts: seq<Artifact>, finding: Finding) {
    || (exists a :: a in artifacts && ArtifactFault(fs, a, finding))
    || (finding == Finding(".repository-engineering/generated-set.json", "generated.set_manifest.stale") &&
        !exists m :: DescribedBy(codec, fs, artifacts, m))
    || (finding.code == "generated.artifact.extra" && !(exists a :: a in artifacts && a.path == finding.path) &&
        match At(fs, ".repository-engineering/generated-set.json")
        case Some(File(bytes)) =>
          codec.decode(bytes).Some? && (exists e :: e in codec.decode(bytes).value.entries && e.path == finding.path)
        case _ => false)
  }

  lemma NextFindings(fs: FileSystem, artifacts: seq<Artifact>, finding: Finding)
    requires artifacts != []
    ensures finding in ArtifactFindings(fs, artifacts) <==>
      || finding in ArtifactFindings(fs, artifacts[..|artifacts| - 1])
      || ArtifactFault(fs, artifacts[|artifacts| - 1], finding)
  {
    var before := ArtifactFindings(fs, artifacts[..|artifacts| - 1]);
    var found := ArtifactFindings(fs, artifacts)[|before|..];
    assert ArtifactFindings(fs, artifacts) == before + found;
  }

  lemma {:induction false} ArtifactFindingsExact(fs: FileSystem, artifacts: seq<Artifact>, finding: Finding)
    ensures finding in ArtifactFindings(fs, artifacts) <==>
            exists a :: a in artifacts && ArtifactFault(fs, a, finding)
  {
    if artifacts != [] {
      var n := |artifacts| - 1;
      ArtifactFindingsExact(fs, artifacts[..n], finding);
      NextFindings(fs, artifacts, finding);
      assert artifacts == artifacts[..n] + [artifacts[n]];
    }
  }

  lemma {:induction false} ExtraFindingsExact(entries: seq<ManifestEntry>, artifacts: seq<Artifact>, finding: Finding)
    ensures finding in ExtraFindings(entries, artifacts) <==>
      && finding.code == "generated.artifact.extra" && !HasPath(artifacts, finding.path)
      && exists e :: e in entries && e.path == finding.path
  {
    if entries != [] {
      var n := |entries| - 1;
      ExtraFindingsExact(entries[..n], artifacts, finding);
      assert forall e :: e in entries <==> e in entries[..n] || e == entries[n];
    }
  }

  lemma ManifestFaultIff(codec: Codec, fs: FileSystem, artifacts: seq<Artifact>)
    ensures ReadRegular(fs, SET_MANIFEST) == Some(ManifestBytes(codec, artifacts)) <==>
            exists m :: DescribedBy(codec, fs, artifacts, m)
  {
    DescribesIff(codec, ManifestOf(codec, artifacts), artifacts);
    if m :| DescribedBy(codec, fs, artifacts, m) {
      DescribesIff(codec, m, artifacts);
    }
    assert ReadRegular(fs, SET_MANIFEST) == Some(ManifestBytes(codec, artifacts)) ==>
      DescribedBy(codec, fs, artifacts, ManifestOf(codec, artifacts));
  }

  /** A check finds exactly the faults there are. */
  lemma FindingExact(codec: Codec, fs: FileSystem, artifacts: seq<Artifact>, finding: Finding)
    ensures finding in CheckFindings(codec, fs, artifacts) <==> Fault(codec, fs, artifacts, finding)
  {
    ArtifactFindingsExact(fs, artifacts, finding);
    ManifestFaultIff(codec, fs, artifacts);
    assert HasPath(artifacts, finding.path) <==> exists a :: a in artifacts && a.path == finding.path;
    var actual := ReadRegular(fs, SET_MANIFEST);
    assert actual == match At(fs, SET_MANIFEST) case Some(File(bytes)) => Some(bytes) case _ => None;
    assert finding in CheckFindings(codec, fs, artifacts) <==>
      || finding in ArtifactFindings(fs, artifacts)
      || (finding == Finding(SET_MANIFEST, MANIFEST_STALE) && actual != Some(ManifestBytes(codec, artifacts)))
      || (actual.Some? && codec.decode(actual.value).Some?
          && finding in ExtraFindings(codec.decode(actual.value).value.entries, artifacts));
    if actual.Some? && codec.decode(actual.value).Some? {
      ExtraFindingsExact(codec.decode(actual.value).value.entries, artifacts, finding);
    }
  }

  lemma FindingOrder()
    ensures TotalOrder(FindingLe)
  {
    StringOrder();
  }

  /** The report is in order by path and then code, holds only what was found, 256 at most, and
      what it leaves out comes after all it holds. */
  lemma ReportedExact(findings: seq<Finding>)
    ensures var report, sorted := Reported(findings), SortBy(FindingLe, findings);
      && |report| == (if |findings| < 256 then |findings| else 256)
      && report <= sorted && multiset(sorted) == multiset(findings)
      && forall i, j :: 0 <= i < j < |sorted| ==>
           var a, b := sorted[i], sorted[j];
           if a.path == b.path then StringLe(a.code, b.code) else StringLe(a.path, b.path)
  {
    FindingOrder();
    SortSorted(FindingLe, findings);
    SameElements(SortBy(FindingLe, findings), findings);
  }
}
