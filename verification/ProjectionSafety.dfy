/** Crash, retry and convergence of projection-set generation. */
module ProjectionSafety {
  import opened Wrappers
  import opened Ordering
  import opened Projection

  // ----- Checking -----

  lemma {:induction false} NoArtifactFindings(fs: FileSystem, artifacts: seq<Artifact>)
    ensures ArtifactFindings(fs, artifacts) == [] <==> ArtifactsMatch(fs, artifacts)
  {
    if artifacts != [] {
      var n := |artifacts| - 1;
      NoArtifactFindings(fs, artifacts[..n]);
      assert ArtifactsMatch(fs, artifacts) <==>
        ArtifactsMatch(fs, artifacts[..n]) && At(fs, artifacts[n].path) == Some(File(artifacts[n].bytes));
    }
  }

  lemma {:induction false} OwnEntriesNotExtra(codec: Codec, artifacts: seq<Artifact>, n: nat)
    requires n <= |artifacts|
    ensures ExtraFindings(ManifestOf(codec, artifacts).entries[..n], artifacts) == []
  {
    if n > 0 {
      var entries := ManifestOf(codec, artifacts).entries;
      OwnEntriesNotExtra(codec, artifacts, n - 1);
      assert entries[..n][..n - 1] == entries[..n - 1];
      assert artifacts[n - 1].path == entries[n - 1].path;
    }
  }

  lemma ReportedSilent(findings: seq<Finding>)
    ensures Reported(findings) == [] <==> findings == []
  {
    SameElements(SortBy(FindingLe, findings), findings);
  }

  lemma FindingsEmptyIff(codec: Codec, fs: FileSystem, artifacts: seq<Artifact>)
    requires Lawful(codec)
    ensures CheckFindings(codec, fs, artifacts) == [] <==> UpToDate(codec, fs, artifacts)
  {
    NoArtifactFindings(fs, artifacts);
    var entries := ManifestOf(codec, artifacts).entries;
    OwnEntriesNotExtra(codec, artifacts, |artifacts|);
    assert entries[..|artifacts|] == entries;
    assert At(fs, SET_MANIFEST) == Some(File(ManifestBytes(codec, artifacts)))
      <==> ReadRegular(fs, SET_MANIFEST) == Some(ManifestBytes(codec, artifacts));
  }

  /** A check is silent exactly when every artifact and the manifest are as expected. */
  lemma CheckSilentIff(codec: Codec, fs: FileSystem, artifacts: seq<Artifact>)
    requires Lawful(codec)
    ensures Reported(CheckFindings(codec, fs, artifacts)) == [] <==> UpToDate(codec, fs, artifacts)
  {
    FindingsEmptyIff(codec, fs, artifacts);
    ReportedSilent(CheckFindings(codec, fs, artifacts));
  }

  // ----- What one replacement does to one path -----

  /** The node a successful replacement leaves at `path`: `None` if it does not touch it,
      `Some(None)` if it removes it. */
  function Effect(artifact: Artifact, path: string): Option<Option<Node>> {
    if path == artifact.path then Some(Some(File(artifact.bytes)))
    else if path == TempPath(artifact.path) then Some(None)
    else if path in Ancestors(artifact.path) then Some(Some(Dir))
    else None
  }

  /** The destination, its parents and its temporary admit a replacement. */
  predicate Replaceable(fs: FileSystem, path: string) {
    && (forall a :: a in Ancestors(path) && a in fs ==> fs[a].Dir?)
    && (TempPath(path) in fs ==> fs[TempPath(path)].File?)
    && !(path in fs && fs[path].Dir?)
  }

  lemma ReplaceEffect(fs: FileSystem, artifact: Artifact, path: string)
    ensures var (after, error) := ReplaceFile(fs, artifact.path, artifact.bytes);
      && (error.None? <==> Replaceable(fs, artifact.path))
      && (error.None? ==>
            At(after, path) == match Effect(artifact, path) case Some(node) => node case None => At(fs, path))
  {
    TempDiffers(artifact.path);
    assert forall a :: a in Ancestors(artifact.path) && a in fs ==> fs[a].File? || fs[a].Dir? || fs[a].Other?;
    var made := CreateDirs(fs, artifact.path);
    assert TempPath(artifact.path) in made <==> TempPath(artifact.path) in fs;
  }

  /** The last effect a list of replacements has on a path. */
  function LastEffect(artifacts: seq<Artifact>, path: string): Option<Option<Node>> {
    if artifacts == [] then None
    else
      var last := Effect(artifacts[|artifacts| - 1], path);
      if last.Some? then last else LastEffect(artifacts[..|artifacts| - 1], path)
  }

  /** A successful list of replacements leaves at each path its last effect there. */
  lemma {:induction false} ReplaceAllEffect(fs: FileSystem, artifacts: seq<Artifact>, path: string)
    requires ReplaceAll(fs, artifacts).1.None?
    ensures At(ReplaceAll(fs, artifacts).0, path)
         == match LastEffect(artifacts, path) case Some(node) => node case None => At(fs, path)
  {
    if artifacts != [] {
      var n := |artifacts| - 1;
      ReplaceAllEffect(fs, artifacts[..n], path);
      ReplaceEffect(ReplaceAll(fs, artifacts[..n]).0, artifacts[n], path);
    }
  }

  /** The whole of a generation's replacements, the manifest last. */
  function WithManifest(codec: Codec, artifacts: seq<Artifact>): seq<Artifact> {
    artifacts + [Artifact(SET_MANIFEST, ManifestBytes(codec, artifacts))]
  }

  lemma GenerateDecomposed(codec: Codec, fs: FileSystem, artifacts: seq<Artifact>)
    ensures var (after, error) := Generate(codec, fs, artifacts, |artifacts| + 1);
      && (error.None? <==>
            && ValidateOutputRoot(fs, artifacts).None?
            && RemoveObsolete(codec, fs, artifacts).1.None?
            && ReplaceAll(RemoveObsolete(codec, fs, artifacts).0, WithManifest(codec, artifacts)).1.None?)
      && (error.None? ==>
            && (after, error) == ReplaceAll(RemoveObsolete(codec, fs, artifacts).0, WithManifest(codec, artifacts))
            && ReplaceAll(RemoveObsolete(codec, fs, artifacts).0, artifacts).1.None?)
  {
    var all := WithManifest(codec, artifacts);
    assert all[..|artifacts|] == artifacts;
  }

  lemma {:induction false} LastEffectOf(artifacts: seq<Artifact>, i: nat, path: string)
    requires i < |artifacts| && Effect(artifacts[i], path).Some?
    requires forall j :: i < j < |artifacts| ==> Effect(artifacts[j], path).None?
    ensures LastEffect(artifacts, path) == Effect(artifacts[i], path)
  {
    if i < |artifacts| - 1 {
      LastEffectOf(artifacts[..|artifacts| - 1], i, path);
    }
  }

  lemma {:induction false} LastEffectFrom(artifacts: seq<Artifact>, path: string) returns (i: nat)
    requires LastEffect(artifacts, path).Some?
    ensures i < |artifacts| && LastEffect(artifacts, path) == Effect(artifacts[i], path)
    ensures forall j :: i < j < |artifacts| ==> Effect(artifacts[j], path).None?
  {
    i := |artifacts| - 1;
    if Effect(artifacts[i], path).None? {
      i := LastEffectFrom(artifacts[..i], path);
    }
  }

  // ----- Removing obsolete artifacts -----

  /** An entry of the previous manifest that the removal accepts. */
  predicate Removable(fs: FileSystem, path: string, artifacts: seq<Artifact>) {
    && ValidRelativePath(path)
    && (HasPath(artifacts, path) ||
        (ManagedParent(artifacts, path) && (path in fs ==> fs[path].File?)))
  }

  predicate Listed(entries: seq<ManifestEntry>, path: string) {
    exists i :: 0 <= i < |entries| && entries[i].path == path
  }

  /** A path of the previous manifest that the new set no longer has. */
  predicate Dropped(entries: seq<ManifestEntry>, artifacts: seq<Artifact>, path: string) {
    Listed(entries, path) && !HasPath(artifacts, path)
  }

  lemma ListedGrows(entries: seq<ManifestEntry>, path: string)
    requires entries != []
    ensures Listed(entries, path) <==>
            entries[|entries| - 1].path == path || Listed(entries[..|entries| - 1], path)
  {
  }

  lemma {:induction false} RemoveEntriesEffect(fs: FileSystem, entries: seq<ManifestEntry>, artifacts: seq<Artifact>,
        path: string)
    ensures var (after, error) := RemoveEntries(fs, entries, artifacts);
      && (error.None? ==> forall i :: 0 <= i < |entries| ==> Removable(fs, entries[i].path, artifacts))
      && (error.None? ==> At(after, path) == if Dropped(entries, artifacts, path) then None else At(fs, path))
  {
    if entries != [] {
      var n := |entries| - 1;
      var last := entries[n].path;
      RemoveEntriesEffect(fs, entries[..n], artifacts, path);
      RemoveEntriesEffect(fs, entries[..n], artifacts, last);
      ListedGrows(entries, path);
      if RemoveEntries(fs, entries, artifacts).1.None? {
        assert Removable(fs, last, artifacts);
        forall i | 0 <= i < |entries| ensures Removable(fs, entries[i].path, artifacts) {
          assert i < n ==> entries[..n][i] == entries[i];
        }
      }
    }
  }

  /** With nothing left to remove, the removal changes nothing. */
  lemma {:induction false} NothingToRemove(fs: FileSystem, entries: seq<ManifestEntry>, artifacts: seq<Artifact>)
    requires forall i :: 0 <= i < |entries| ==>
               && Removable(fs, entries[i].path, artifacts)
               && (HasPath(artifacts, entries[i].path) || entries[i].path !in fs)
    ensures RemoveEntries(fs, entries, artifacts) == (fs, None)
  {
    if entries != [] {
      NothingToRemove(fs, entries[..|entries| - 1], artifacts);
      assert entries[|entries| - 1].path !in fs ==> fs - {entries[|entries| - 1].path} == fs;
    }
  }

  // ----- Which sets can be replaced again from any point -----

  function Path(list: seq<Artifact>, i: nat): string
    requires i < |list|
  {
    list[i].path
  }

  /** No temporary of the list is a directory above one of its paths. */
  ghost predicate Separate(list: seq<Artifact>) {
    forall i: nat, j: nat :: i < |list| && j < |list| ==> TempPath(Path(list, i)) !in Ancestors(Path(list, j))
  }

  ghost predicate AncestorFree(list: seq<Artifact>) {
    forall i: nat, j: nat :: i < |list| && j < |list| ==> Path(list, i) !in Ancestors(Path(list, j))
  }

  /** Every path of the list can be replaced at once. */
  ghost predicate Compatible(fs: FileSystem, list: seq<Artifact>) {
    forall i: nat :: i < |list| ==> Replaceable(fs, Path(list, i))
  }

  lemma PrefixSucceeds(fs: FileSystem, list: seq<Artifact>, n: nat)
    requires ReplaceAll(fs, list).1.None? && n <= |list|
    ensures ReplaceAll(fs, list[..n]).1.None?
    ensures n < |list| ==> Replaceable(ReplaceAll(fs, list[..n]).0, Path(list, n))
  {
    if ReplaceAll(fs, list[..n]).1.Some? {
      ReplaceFail(fs, list, n);
    }
    if n < |list| {
      if ReplaceAll(fs, list[..n + 1]).1.Some? {
        ReplaceFail(fs, list, n + 1);
      }
      assert list[..n + 1][..n] == list[..n];
      ReplaceEffect(ReplaceAll(fs, list[..n]).0, list[n], "");
    }
  }

  /** What stage `i` of a successful run finds at a path, and who left it there. */
  lemma FoundAt(fs: FileSystem, list: seq<Artifact>, i: nat, path: string) returns (m: nat)
    requires ReplaceAll(fs, list).1.None? && i <= |list|
    ensures var found := At(ReplaceAll(fs, list[..i]).0, path);
      && m <= i
      && (m == i ==> found == At(fs, path) && forall j: nat :: j < i ==> Effect(list[j], path).None?)
      && (m < i ==> Effect(list[m], path) == Some(found) && forall j: nat :: m < j < i ==> Effect(list[j], path).None?)
  {
    PrefixSucceeds(fs, list, i);
    ReplaceAllEffect(fs, list[..i], path);
    if LastEffect(list[..i], path).Some? {
      m := LastEffectFrom(list[..i], path);
      assert list[..i][m] == list[m];
      forall j: nat | m < j < i ensures Effect(list[j], path).None? {
        assert list[..i][j] == list[j];
      }
    } else {
      m := i;
      NoEffects(list[..i], path);
      forall j: nat | j < i ensures Effect(list[j], path).None? {
        assert list[..i][j] == list[j];
      }
    }
  }

  lemma {:induction false} NoEffects(list: seq<Artifact>, path: string)
    requires LastEffect(list, path).None?
    ensures forall j: nat :: j < |list| ==> Effect(list[j], path).None?
  {
    if list != [] {
      NoEffects(list[..|list| - 1], path);
      forall j: nat | j < |list| ensures Effect(list[j], path).None? {
        if j < |list| - 1 {
          assert list[..|list| - 1][j] == list[j];
        }
      }
    }
  }

  lemma DirStaysOnce(fs: FileSystem, artifact: Artifact, path: string)
    requires ReplaceFile(fs, artifact.path, artifact.bytes).1.None? && At(fs, path) == Some(Dir)
    ensures At(ReplaceFile(fs, artifact.path, artifact.bytes).0, path) == Some(Dir)
  {
    ReplaceEffect(fs, artifact, path);
  }

  /** A directory outlives every successful replacement. */
  lemma {:induction false} DirStays(fs: FileSystem, list: seq<Artifact>, path: string)
    requires ReplaceAll(fs, list).1.None? && At(fs, path) == Some(Dir)
    ensures At(ReplaceAll(fs, list).0, path) == Some(Dir)
  {
    if list != [] {
      var n := |list| - 1;
      DirStays(fs, list[..n], path);
      DirStaysOnce(ReplaceAll(fs, list[..n]).0, list[n], path);
    }
  }

  /** A directory above a path being replaced was not itself put there by a replacement. */
  lemma AboveUntouched(fs: FileSystem, list: seq<Artifact>, j: nat, path: string) returns (m: nat)
    requires ReplaceAll(fs, list).1.None? && Separate(list) && j < |list| && path in Ancestors(Path(list, j))
    ensures m <= j
    ensures forall k: nat :: m < k < j ==> Effect(list[k], path).None?
    ensures m < j ==> Path(list, m) != path && path in Ancestors(Path(list, m))
    ensures m == j ==> (forall k: nat :: k < j ==> Effect(list[k], path).None?) && (path in fs ==> fs[path].Dir?)
  {
    PrefixSucceeds(fs, list, j);
    assert forall k: nat :: k < |list| ==> TempPath(Path(list, k)) != path;
    m := FoundAt(fs, list, j, path);
  }

  lemma EarlierNotAbove(fs: FileSystem, list: seq<Artifact>, i: nat, j: nat)
    requires ReplaceAll(fs, list).1.None? && Separate(list) && i < j < |list|
    requires forall k: nat :: k < j ==> Path(list, i) !in Ancestors(Path(list, k))
    ensures Path(list, i) !in Ancestors(Path(list, j))
  {
    var path := Path(list, i);
    if path in Ancestors(Path(list, j)) {
      assert Effect(list[i], path).Some?;
      var m := AboveUntouched(fs, list, j, path);
    }
  }

  lemma LaterNotAbove(fs: FileSystem, list: seq<Artifact>, i: nat, j: nat)
    requires ReplaceAll(fs, list).1.None? && Separate(list) && DistinctPaths(list) && i < j < |list|
    ensures Path(list, j) !in Ancestors(Path(list, i))
  {
    var path := Path(list, j);
    if path in Ancestors(Path(list, i)) {
      assert TempPath(Path(list, i)) != path;
      assert Effect(list[i], path) == Some(Some(Dir));
      assert forall k: nat :: k < |list| ==> TempPath(Path(list, k)) != path;
      assert forall k: nat :: k < j ==> Path(list, k) != path;
      PrefixSucceeds(fs, list, j);
      LaterBlocked(fs, list, j, path);
    }
  }

  /** A path once made a directory, and never removed or written, is still one. */
  lemma LaterBlocked(fs: FileSystem, list: seq<Artifact>, j: nat, path: string)
    requires ReplaceAll(fs, list).1.None? && j <= |list|
    requires forall k: nat :: k < j ==> TempPath(Path(list, k)) != path && Path(list, k) != path
    requires exists i: nat :: i < j && Effect(list[i], path).Some?
    ensures At(ReplaceAll(fs, list[..j]).0, path) == Some(Dir)
  {
    var m := FoundAt(fs, list, j, path);
    assert m < j;
    assert Path(list, m) != path;
  }

  ghost predicate AncestorFreeUpTo(list: seq<Artifact>, n: nat) {
    forall i: nat, j: nat :: i < |list| && j < |list| && i < n && j < n ==> Path(list, i) !in Ancestors(Path(list, j))
  }

  lemma AncestorFreeGrows(list: seq<Artifact>, n: nat)
    requires n < |list| && AncestorFreeUpTo(list, n)
    requires forall i: nat :: i < n ==>
               Path(list, i) !in Ancestors(Path(list, n)) && Path(list, n) !in Ancestors(Path(list, i))
    ensures AncestorFreeUpTo(list, n + 1)
  {
    TempDiffers(Path(list, n));
  }

  lemma NewestApart(fs: FileSystem, list: seq<Artifact>, i: nat, j: nat)
    requires ReplaceAll(fs, list).1.None? && Separate(list) && DistinctPaths(list) && i < j < |list|
    requires AncestorFreeUpTo(list, j)
    ensures Path(list, i) !in Ancestors(Path(list, j)) && Path(list, j) !in Ancestors(Path(list, i))
  {
    EarlierNotAbove(fs, list, i, j);
    LaterNotAbove(fs, list, i, j);
  }

  lemma NewestApartFromAll(fs: FileSystem, list: seq<Artifact>, n: nat)
    requires ReplaceAll(fs, list).1.None? && Separate(list) && DistinctPaths(list) && n < |list| &&
        AncestorFreeUpTo(list, n)
    ensures AncestorFreeUpTo(list, n + 1)
  {
    forall i: nat | i < n
      ensures Path(list, i) !in Ancestors(Path(list, n)) && Path(list, n) !in Ancestors(Path(list, i))
    {
      NewestApart(fs, list, i, n);
    }
    AncestorFreeGrows(list, n);
  }

  /** In a run that succeeds, no path of the list is a directory above another. */
  lemma {:induction false} SuccessAncestorFree(fs: FileSystem, list: seq<Artifact>, n: nat)
    requires ReplaceAll(fs, list).1.None? && Separate(list) && DistinctPaths(list) && n <= |list|
    ensures AncestorFreeUpTo(list, n)
  {
    if n > 0 {
      SuccessAncestorFree(fs, list, n - 1);
      NewestApartFromAll(fs, list, n - 1);
    }
  }

  /** A path of the list that doubles as a temporary starts out as a file or absent. */
  ghost predicate TempLeavesPlain(fs: FileSystem, list: seq<Artifact>) {
    forall i: nat, j: nat :: i < |list| && j < |list| && TempPath(Path(list, i)) == Path(list, j) && Path(list, j) in fs
      ==> fs[Path(list, j)].File?
  }

  ghost predicate CompatibleUpTo(fs: FileSystem, list: seq<Artifact>, n: nat) {
    forall i: nat :: i < n && i < |list| ==> Replaceable(fs, Path(list, i))
  }

  /** The run so far: it succeeds, and the paths before `i` could have been replaced first. */
  ghost predicate Underway(fs: FileSystem, list: seq<Artifact>, i: nat) {
    && ReplaceAll(fs, list).1.None? && Separate(list) && AncestorFree(list) && DistinctPaths(list)
    && TempLeavesPlain(fs, list) && i < |list| && CompatibleUpTo(fs, list, i)
  }

  lemma ParentsFit(fs: FileSystem, list: seq<Artifact>, i: nat, a: string)
    requires Underway(fs, list, i) && a in Ancestors(Path(list, i)) && a in fs
    ensures fs[a].Dir?
  {
    PrefixSucceeds(fs, list, i);
    var m := FoundAt(fs, list, i, a);
    if m < i {
      assert Path(list, m) != a && TempPath(Path(list, m)) != a;
      assert Replaceable(fs, Path(list, m));
    }
  }

  lemma TemporaryFits(fs: FileSystem, list: seq<Artifact>, i: nat)
    requires Underway(fs, list, i) && TempPath(Path(list, i)) in fs
    ensures fs[TempPath(Path(list, i))].File?
  {
    var temp := TempPath(Path(list, i));
    PrefixSucceeds(fs, list, i);
    var m := FoundAt(fs, list, i, temp);
    if m < i {
      assert temp !in Ancestors(Path(list, m));
      assert Replaceable(fs, Path(list, m));
    }
  }

  lemma LeafFits(fs: FileSystem, list: seq<Artifact>, i: nat)
    requires Underway(fs, list, i) && Path(list, i) in fs
    ensures !fs[Path(list, i)].Dir?
  {
    var path := Path(list, i);
    PrefixSucceeds(fs, list, i);
    var m := FoundAt(fs, list, i, path);
    if m < i {
      assert path !in Ancestors(Path(list, m)) && Path(list, m) != path;
      assert Replaceable(fs, Path(list, m));
    }
  }

  lemma NextFits(fs: FileSystem, list: seq<Artifact>, i: nat)
    requires Underway(fs, list, i)
    ensures Replaceable(fs, Path(list, i))
  {
    forall a | a in Ancestors(Path(list, i)) && a in fs ensures fs[a].Dir? {
      ParentsFit(fs, list, i, a);
    }
    if TempPath(Path(list, i)) in fs {
      TemporaryFits(fs, list, i);
    }
    if Path(list, i) in fs {
      LeafFits(fs, list, i);
    }
  }

  lemma OneMoreFits(fs: FileSystem, list: seq<Artifact>, n: nat)
    requires Underway(fs, list, n)
    ensures CompatibleUpTo(fs, list, n + 1)
  {
    NextFits(fs, list, n);
  }

  /** A run that succeeds could have replaced any of its paths first. */
  lemma {:induction false} SuccessCompatible(fs: FileSystem, list: seq<Artifact>, n: nat)
    requires ReplaceAll(fs, list).1.None? && Separate(list) && AncestorFree(list) && DistinctPaths(list)
    requires TempLeavesPlain(fs, list) && n <= |list|
    ensures CompatibleUpTo(fs, list, n)
  {
    if n > 0 {
      SuccessCompatible(fs, list, n - 1);
      OneMoreFits(fs, list, n - 1);
    }
  }

  lemma CompatibleStep(fs: FileSystem, list: seq<Artifact>, m: nat)
    requires Compatible(fs, list) && Separate(list) && AncestorFree(list) && m < |list|
    ensures ReplaceFile(fs, list[m].path, list[m].bytes).1.None?
    ensures Compatible(ReplaceFile(fs, list[m].path, list[m].bytes).0, list)
  {
    var after := ReplaceFile(fs, list[m].path, list[m].bytes).0;
    assert Replaceable(fs, Path(list, m));
    ReplaceEffect(fs, list[m], "");
    forall i: nat | i < |list| ensures Replaceable(after, Path(list, i)) {
      var path := Path(list, i);
      assert Replaceable(fs, path);
      forall a | a in Ancestors(path) && a in after ensures after[a].Dir? {
        ReplaceEffect(fs, list[m], a);
        assert Path(list, m) != a && TempPath(Path(list, m)) != a;
      }
      ReplaceEffect(fs, list[m], TempPath(path));
      assert TempPath(path) !in Ancestors(Path(list, m));
      ReplaceEffect(fs, list[m], path);
      assert path !in Ancestors(Path(list, m));
    }
  }

  lemma {:induction false} CompatibleSucceeds(fs: FileSystem, list: seq<Artifact>, n: nat)
    requires Compatible(fs, list) && Separate(list) && AncestorFree(list) && n <= |list|
    ensures ReplaceAll(fs, list[..n]).1.None? && Compatible(ReplaceAll(fs, list[..n]).0, list)
  {
    if n > 0 {
      CompatibleSucceeds(fs, list, n - 1);
      CompatibleStep(ReplaceAll(fs, list[..n - 1]).0, list, n - 1);
      assert list[..n][..n - 1] == list[..n - 1];
    }
  }

  /** Starting over after any number of replacements ends in the same file system. */
  lemma ReplayConverges(fs: FileSystem, list: seq<Artifact>, n: nat)
    requires ReplaceAll(fs, list).1.None? && Separate(list) && DistinctPaths(list)
    requires TempLeavesPlain(fs, list) && n <= |list|
    ensures AncestorFree(list)
    ensures Compatible(ReplaceAll(fs, list[..n]).0, list)
    ensures ReplaceAll(ReplaceAll(fs, list[..n]).0, list) == ReplaceAll(fs, list)
  {
    SuccessAncestorFree(fs, list, |list|);
    SuccessCompatible(fs, list, |list|);
    CompatibleSucceeds(fs, list, n);
    var part := ReplaceAll(fs, list[..n]).0;
    CompatibleSucceeds(part, list, |list|);
    assert list[..|list|] == list;
    var again, once := ReplaceAll(part, list).0, ReplaceAll(fs, list).0;
    forall path ensures At(again, path) == At(once, path) {
      ReplaceAllEffect(part, list, path);
      ReplaceAllEffect(fs, list, path);
      if LastEffect(list, path).None? {
        var m := FoundAt(fs, list, n, path);
        NoEffects(list, path);
      }
    }
    SameFileSystem(again, once);
  }

  lemma SameFileSystem(a: FileSystem, b: FileSystem)
    requires forall path :: At(a, path) == At(b, path)
    ensures a == b
  {
    forall path ensures path in a <==> path in b {
      assert At(a, path) == At(b, path);
    }
    forall path | path in a ensures a[path] == b[path] {
      assert At(a, path) == At(b, path);
    }
  }
}
