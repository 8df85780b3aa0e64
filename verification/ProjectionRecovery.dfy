/** When an interrupted generation can be finished by running it again, and what a finished
    one leaves on disk. */
module ProjectionRecovery {
  import opened Wrappers
  import opened Framing
  import opened Projection
  import opened ProjectionSafety

  // ----- Names -----

  /** A temporary is never the manifest nor the directory of the manifest. */
  lemma TemporaryNames(path: string)
    ensures TempPath(path) != SET_MANIFEST
    ensures TempPath(path) !in Ancestors(SET_MANIFEST)
  {
    var temp := TempPath(path);
    assert temp[|temp| - 1] == TEMP_SUFFIX[|TEMP_SUFFIX| - 1] == 'p';
    assert SET_MANIFEST[|SET_MANIFEST| - 1] == 'n';
    ManifestDirectory();
  }

  lemma ManifestDirectory()
    ensures Ancestors(SET_MANIFEST) == {".repository-engineering"}
  {
    assert forall i :: 0 <= i < |SET_MANIFEST| && i != 23 ==> SET_MANIFEST[i] != '/';
    assert SET_MANIFEST[23] == '/' && SET_MANIFEST[..23] == ".repository-engineering";
  }

  // ----- A successful generation -----

  /** The file system after the obsolete artifacts are gone. */
  function Cleared(codec: Codec, fs: FileSystem, artifacts: seq<Artifact>): FileSystem {
    RemoveObsolete(codec, fs, artifacts).0
  }

  function Entries(codec: Codec, fs: FileSystem): seq<ManifestEntry> {
    match PreviousEntries(codec, fs) case Ok(entries) => entries case Err(_) => []
  }

  /** An uninterrupted generation of a valid set that reports no error. */
  ghost predicate Succeeds(codec: Codec, fs: FileSystem, artifacts: seq<Artifact>) {
    ValidSet(artifacts) && Generate(codec, fs, artifacts, |artifacts| + 1).1.None?
  }

  lemma {:induction false} ValidateIff(fs: FileSystem, artifacts: seq<Artifact>)
    ensures ValidateOutputRoot(fs, artifacts).None? <==>
            forall i :: 0 <= i < |artifacts| ==> SafeOutput(fs, artifacts[i].path)
  {
    if artifacts != [] {
      var n := |artifacts| - 1;
      ValidateIff(fs, artifacts[..n]);
      assert forall i :: 0 <= i < n ==> artifacts[..n][i] == artifacts[i];
    }
  }

  lemma ClearedEffect(codec: Codec, fs: FileSystem, artifacts: seq<Artifact>, path: string)
    requires RemoveObsolete(codec, fs, artifacts).1.None?
    ensures At(Cleared(codec, fs, artifacts), path)
         == if Dropped(Entries(codec, fs), artifacts, path) then None else At(fs, path)
  {
    RemoveEntriesEffect(fs, Entries(codec, fs), artifacts, path);
  }

  lemma WithManifestPaths(codec: Codec, artifacts: seq<Artifact>)
    requires Acceptable(artifacts)
    ensures var list := WithManifest(codec, artifacts);
      && DistinctPaths(list)
      && (forall i :: 0 <= i < |artifacts| ==> Path(list, i) == artifacts[i].path)
      && Path(list, |artifacts|) == SET_MANIFEST
      && (forall n :: 0 <= n <= |artifacts| ==> list[..n] == artifacts[..n])
  {
  }

  lemma SuccessParts(codec: Codec, fs: FileSystem, artifacts: seq<Artifact>)
    requires Succeeds(codec, fs, artifacts)
    ensures forall i :: 0 <= i < |artifacts| ==> SafeOutput(fs, artifacts[i].path)
    ensures RemoveObsolete(codec, fs, artifacts).1.None?
    ensures ReplaceAll(Cleared(codec, fs, artifacts), WithManifest(codec, artifacts)).1.None?
    ensures ReplaceAll(Cleared(codec, fs, artifacts), artifacts).1.None?
    ensures Generate(codec, fs, artifacts, |artifacts| + 1)
         == ReplaceAll(Cleared(codec, fs, artifacts), WithManifest(codec, artifacts))
  {
    GenerateDecomposed(codec, fs, artifacts);
    ValidateIff(fs, artifacts);
  }

  /** The manifest's own replacement finds the paths it needs as the artifacts left them. */
  lemma ManifestReplaceable(codec: Codec, fs: FileSystem, artifacts: seq<Artifact>)
    requires Succeeds(codec, fs, artifacts)
    ensures Replaceable(ReplaceAll(Cleared(codec, fs, artifacts), artifacts).0, SET_MANIFEST)
  {
    SuccessParts(codec, fs, artifacts);
    WithManifestPaths(codec, artifacts);
    PrefixSucceeds(Cleared(codec, fs, artifacts), WithManifest(codec, artifacts), |artifacts|);
  }

  /** No artifact's replacement touches the manifest. */
  lemma ManifestUntouched(codec: Codec, fs: FileSystem, artifacts: seq<Artifact>, n: nat)
    requires Succeeds(codec, fs, artifacts) && n <= |artifacts|
    ensures At(ReplaceAll(Cleared(codec, fs, artifacts), artifacts[..n]).0, SET_MANIFEST)
         == At(Cleared(codec, fs, artifacts), SET_MANIFEST)
  {
    var cleared := Cleared(codec, fs, artifacts);
    SuccessParts(codec, fs, artifacts);
    ManifestReplaceable(codec, fs, artifacts);
    forall i: nat | i < |artifacts| ensures TempPath(Path(artifacts, i)) != SET_MANIFEST {
      TemporaryNames(Path(artifacts, i));
    }
    assert artifacts[..|artifacts|] == artifacts;
    if exists i: nat :: i < |artifacts| && Effect(artifacts[i], SET_MANIFEST).Some? {
      LaterBlocked(cleared, artifacts, |artifacts|, SET_MANIFEST);
    }
    var m := FoundAt(cleared, artifacts, n, SET_MANIFEST);
  }

  /** Separation of the artifacts extends to the manifest. */
  lemma SeparateWithManifest(codec: Codec, fs: FileSystem, artifacts: seq<Artifact>)
    requires Succeeds(codec, fs, artifacts) && Separate(artifacts)
    ensures Separate(WithManifest(codec, artifacts))
  {
    var cleared, list := Cleared(codec, fs, artifacts), WithManifest(codec, artifacts);
    SuccessParts(codec, fs, artifacts);
    WithManifestPaths(codec, artifacts);
    ManifestReplaceable(codec, fs, artifacts);
    forall i: nat, j: nat | i < |list| && j < |list|
      ensures TempPath(Path(list, i)) !in Ancestors(Path(list, j))
    {
      TemporaryNames(Path(list, i));
      TempDiffers(SET_MANIFEST);
      if j < |artifacts| {
        if i < |artifacts| {
          assert TempPath(Path(artifacts, i)) !in Ancestors(Path(artifacts, j));
        } else {
          TemporaryNotAbove(cleared, artifacts, SET_MANIFEST, j);
        }
      }
    }
  }

  /** A path about to be replaced has no directory in the way of its temporary. */
  lemma TemporaryNotAbove(fs: FileSystem, list: seq<Artifact>, path: string, j: nat)
    requires ReplaceAll(fs, list).1.None? && j < |list|
    requires Replaceable(ReplaceAll(fs, list).0, path)
    ensures TempPath(path) !in Ancestors(Path(list, j))
  {
    var temp := TempPath(path);
    if temp in Ancestors(Path(list, j)) {
      DirMade(fs, list, j, temp);
    }
  }

  lemma DirAfter(fs: FileSystem, list: seq<Artifact>, n: nat, a: string)
    requires ReplaceAll(fs, list).1.None? && n < |list|
    requires At(ReplaceAll(fs, list[..n]).0, a) == Some(Dir) || a in Ancestors(Path(list, n))
    ensures At(ReplaceAll(fs, list[..n + 1]).0, a) == Some(Dir)
  {
    var before := ReplaceAll(fs, list[..n]).0;
    PrefixSucceeds(fs, list, n + 1);
    PrefixSucceeds(fs, list, n);
    ReplaceNext(fs, list, n);
    if a in Ancestors(Path(list, n)) {
      DirMadeOnce(before, list[n], a);
    } else {
      DirStaysOnce(before, list[n], a);
    }
  }

  lemma {:induction false} DirMadeBy(fs: FileSystem, list: seq<Artifact>, j: nat, a: string, n: nat)
    requires ReplaceAll(fs, list).1.None? && j < n <= |list| && a in Ancestors(Path(list, j))
    ensures At(ReplaceAll(fs, list[..n]).0, a) == Some(Dir)
  {
    if j < n - 1 {
      DirMadeBy(fs, list, j, a, n - 1);
    }
    DirAfter(fs, list, n - 1, a);
  }

  /** A directory created on the way stays to the end. */
  lemma DirMade(fs: FileSystem, list: seq<Artifact>, j: nat, a: string)
    requires ReplaceAll(fs, list).1.None? && j < |list| && a in Ancestors(Path(list, j))
    ensures At(ReplaceAll(fs, list).0, a) == Some(Dir)
  {
    DirMadeBy(fs, list, j, a, |list|);
    assert list[..|list|] == list;
  }

  lemma DirMadeOnce(fs: FileSystem, artifact: Artifact, a: string)
    requires ReplaceFile(fs, artifact.path, artifact.bytes).1.None? && a in Ancestors(artifact.path)
    ensures At(ReplaceFile(fs, artifact.path, artifact.bytes).0, a) == Some(Dir)
  {
    TempDiffers(artifact.path);
    ReplaceEffect(fs, artifact, a);
  }

  lemma LeavesPlain(codec: Codec, fs: FileSystem, artifacts: seq<Artifact>)
    requires Succeeds(codec, fs, artifacts)
    ensures var cleared := Cleared(codec, fs, artifacts);
      forall i: nat :: i < |artifacts| && Path(artifacts, i) in cleared ==> cleared[Path(artifacts, i)].File?
  {
    SuccessParts(codec, fs, artifacts);
    forall i: nat | i < |artifacts| && Path(artifacts, i) in Cleared(codec, fs, artifacts)
      ensures Cleared(codec, fs, artifacts)[Path(artifacts, i)].File?
    {
      ClearedEffect(codec, fs, artifacts, Path(artifacts, i));
      assert SafeOutput(fs, artifacts[i].path);
    }
  }

  lemma TempLeavesPlainWithManifest(codec: Codec, fs: FileSystem, artifacts: seq<Artifact>)
    requires Succeeds(codec, fs, artifacts)
    ensures TempLeavesPlain(Cleared(codec, fs, artifacts), WithManifest(codec, artifacts))
  {
    var list, cleared := WithManifest(codec, artifacts), Cleared(codec, fs, artifacts);
    LeavesPlain(codec, fs, artifacts);
    WithManifestPaths(codec, artifacts);
    forall i: nat, j: nat |
        i < |list| && j < |list| && TempPath(Path(list, i)) == Path(list, j) && Path(list, j) in cleared
      ensures cleared[Path(list, j)].File?
    {
      TemporaryNames(Path(list, i));
      assert j < |artifacts| && Path(list, j) == Path(artifacts, j);
    }
  }

  /** Everything a resumed run needs, from a run that succeeded. */
  lemma ResumeBase(codec: Codec, fs: FileSystem, artifacts: seq<Artifact>, n: nat)
    requires Succeeds(codec, fs, artifacts) && Separate(artifacts) && n <= |artifacts| + 1
    ensures var list, cleared := WithManifest(codec, artifacts), Cleared(codec, fs, artifacts);
      var part := ReplaceAll(cleared, list[..n]).0;
      && AncestorFree(list)
      && ReplaceAll(part, list) == ReplaceAll(cleared, list)
      && ValidateOutputRoot(part, artifacts).None?
  {
    var list, cleared := WithManifest(codec, artifacts), Cleared(codec, fs, artifacts);
    SuccessParts(codec, fs, artifacts);
    WithManifestPaths(codec, artifacts);
    SeparateWithManifest(codec, fs, artifacts);
    TempLeavesPlainWithManifest(codec, fs, artifacts);
    LeavesPlain(codec, fs, artifacts);
    assert forall i: nat :: i < |artifacts| ==> Path(list, i) == Path(artifacts, i);
    ReplayConverges(cleared, list, n);
    ValidAgain(cleared, list, artifacts, n);
  }

  lemma SafeAgain(cleared: FileSystem, list: seq<Artifact>, n: nat, i: nat)
    requires ReplaceAll(cleared, list).1.None? && AncestorFree(list) && n <= |list| && i < |list|
    requires Replaceable(ReplaceAll(cleared, list[..n]).0, Path(list, i))
    requires Path(list, i) in cleared ==> cleared[Path(list, i)].File?
    ensures SafeOutput(ReplaceAll(cleared, list[..n]).0, Path(list, i))
  {
    var m := FoundAt(cleared, list, n, Path(list, i));
    if m < n {
      assert Path(list, i) !in Ancestors(Path(list, m));
    }
  }

  lemma ValidAgain(cleared: FileSystem, list: seq<Artifact>, artifacts: seq<Artifact>, n: nat)
    requires ReplaceAll(cleared, list).1.None? && AncestorFree(list) && n <= |list| == |artifacts| + 1
    requires Compatible(ReplaceAll(cleared, list[..n]).0, list)
    requires forall i: nat :: i < |artifacts| ==> Path(list, i) == artifacts[i].path
    requires forall i: nat :: i < |artifacts| && Path(list, i) in cleared ==> cleared[Path(list, i)].File?
    ensures ValidateOutputRoot(ReplaceAll(cleared, list[..n]).0, artifacts).None?
  {
    var part := ReplaceAll(cleared, list[..n]).0;
    forall i: nat | i < |artifacts| ensures SafeOutput(part, artifacts[i].path) {
      assert Replaceable(part, Path(list, i));
      SafeAgain(cleared, list, n, i);
    }
    ValidateIff(part, artifacts);
  }

  /** Where nothing obsolete is left, running again completes what one run would have done. */
  lemma ResumeCompletes(codec: Codec, fs: FileSystem, artifacts: seq<Artifact>, n: nat)
    requires Succeeds(codec, fs, artifacts) && Separate(artifacts) && n <= |artifacts| + 1
    requires var part := ReplaceAll(Cleared(codec, fs, artifacts), WithManifest(codec, artifacts)[..n]).0;
      RemoveObsolete(codec, part, artifacts) == (part, None)
    ensures var part := ReplaceAll(Cleared(codec, fs, artifacts), WithManifest(codec, artifacts)[..n]).0;
      Generate(codec, part, artifacts, |artifacts| + 1) == Generate(codec, fs, artifacts, |artifacts| + 1)
  {
    var part := ReplaceAll(Cleared(codec, fs, artifacts), WithManifest(codec, artifacts)[..n]).0;
    ResumeBase(codec, fs, artifacts, n);
    SuccessParts(codec, fs, artifacts);
    GenerateDecomposed(codec, part, artifacts);
  }

  // ----- Interruption and retry -----

  /** A path the previous manifest names, the new set does not, and a retry will meet again
      because the previous manifest is still there. */
  predicate Revisited(codec: Codec, fs: FileSystem, artifacts: seq<Artifact>, path: string) {
    && !Dropped(Entries(codec, fs), artifacts, SET_MANIFEST)
    && Dropped(Entries(codec, fs), artifacts, path)
  }

  /** No temporary and no revisited path is a directory above an artifact. */
  ghost predicate Recoverable(codec: Codec, fs: FileSystem, artifacts: seq<Artifact>) {
    && Separate(artifacts)
    && forall path, j: nat :: j < |artifacts| && Revisited(codec, fs, artifacts, path) ==>
         path !in Ancestors(Path(artifacts, j))
  }

  lemma InterruptedState(codec: Codec, fs: FileSystem, artifacts: seq<Artifact>, n: nat)
    requires Succeeds(codec, fs, artifacts) && n <= |artifacts|
    ensures Generate(codec, fs, artifacts, n)
         == (ReplaceAll(Cleared(codec, fs, artifacts), artifacts[..n]).0, Some(ReplacementInterrupted))
  {
    SuccessParts(codec, fs, artifacts);
    PrefixSucceeds(Cleared(codec, fs, artifacts), artifacts, n);
  }

  /** While the manifest is not replaced, the same previous manifest is read, unless it was
      itself removed. */
  lemma EntriesAgain(codec: Codec, fs: FileSystem, artifacts: seq<Artifact>, n: nat)
    requires Succeeds(codec, fs, artifacts) && n <= |artifacts|
    ensures var part := ReplaceAll(Cleared(codec, fs, artifacts), artifacts[..n]).0;
      if Dropped(Entries(codec, fs), artifacts, SET_MANIFEST) then PreviousEntries(codec, part) == Ok([])
      else PreviousEntries(codec, part) == PreviousEntries(codec, fs) == Ok(Entries(codec, fs))
  {
    var part := ReplaceAll(Cleared(codec, fs, artifacts), artifacts[..n]).0;
    SuccessParts(codec, fs, artifacts);
    ManifestUntouched(codec, fs, artifacts, n);
    ClearedEffect(codec, fs, artifacts, SET_MANIFEST);
    if Dropped(Entries(codec, fs), artifacts, SET_MANIFEST) {
      assert SET_MANIFEST !in part;
    } else {
      assert ReadRegular(part, SET_MANIFEST) == ReadRegular(fs, SET_MANIFEST);
    }
  }

  lemma NothingObsoleteLeft(codec: Codec, fs: FileSystem, artifacts: seq<Artifact>, n: nat, path: string)
    requires Succeeds(codec, fs, artifacts) && Recoverable(codec, fs, artifacts) && n <= |artifacts|
    requires Revisited(codec, fs, artifacts, path)
    ensures path !in ReplaceAll(Cleared(codec, fs, artifacts), artifacts[..n]).0
  {
    SuccessParts(codec, fs, artifacts);
    ClearedEffect(codec, fs, artifacts, path);
    var m := FoundAt(Cleared(codec, fs, artifacts), artifacts, n, path);
    if m < n {
      assert Path(artifacts, m) != path && path !in Ancestors(Path(artifacts, m));
    }
  }

  lemma RetryRemovesNothing(codec: Codec, fs: FileSystem, artifacts: seq<Artifact>, n: nat)
    requires Succeeds(codec, fs, artifacts) && Recoverable(codec, fs, artifacts) && n <= |artifacts|
    ensures var part := ReplaceAll(Cleared(codec, fs, artifacts), artifacts[..n]).0;
      RemoveObsolete(codec, part, artifacts) == (part, None)
  {
    var part := ReplaceAll(Cleared(codec, fs, artifacts), artifacts[..n]).0;
    EntriesAgain(codec, fs, artifacts, n);
    if !Dropped(Entries(codec, fs), artifacts, SET_MANIFEST) {
      var entries := Entries(codec, fs);
      SuccessParts(codec, fs, artifacts);
      RemoveEntriesEffect(fs, entries, artifacts, SET_MANIFEST);
      forall i | 0 <= i < |entries|
        ensures Removable(part, entries[i].path, artifacts)
        ensures HasPath(artifacts, entries[i].path) || entries[i].path !in part
      {
        assert Removable(fs, entries[i].path, artifacts);
        if !HasPath(artifacts, entries[i].path) {
          assert Revisited(codec, fs, artifacts, entries[i].path);
          NothingObsoleteLeft(codec, fs, artifacts, n, entries[i].path);
        }
      }
      NothingToRemove(part, entries, artifacts);
    }
  }

  lemma RetryCompletes(codec: Codec, fs: FileSystem, artifacts: seq<Artifact>, n: nat)
    requires Succeeds(codec, fs, artifacts) && Recoverable(codec, fs, artifacts) && n <= |artifacts|
    ensures Generate(codec, Generate(codec, fs, artifacts, n).0, artifacts, |artifacts| + 1)
         == Generate(codec, fs, artifacts, |artifacts| + 1)
  {
    InterruptedState(codec, fs, artifacts, n);
    RetryRemovesNothing(codec, fs, artifacts, n);
    WithManifestPaths(codec, artifacts);
    ResumeCompletes(codec, fs, artifacts, n);
  }

  lemma MadeDirectory(codec: Codec, fs: FileSystem, artifacts: seq<Artifact>, j: nat, a: string)
    requires Succeeds(codec, fs, artifacts) && j < |artifacts| && a in Ancestors(Path(artifacts, j))
    ensures At(Generate(codec, fs, artifacts, j + 1).0, a) == Some(Dir)
  {
    SuccessParts(codec, fs, artifacts);
    InterruptedState(codec, fs, artifacts, j + 1);
    PrefixSucceeds(Cleared(codec, fs, artifacts), artifacts, j + 1);
    assert Path(artifacts[..j + 1], j) == Path(artifacts, j);
    DirMade(Cleared(codec, fs, artifacts), artifacts[..j + 1], j, a);
  }

  /** Once a revisited path has become a directory, the retry refuses it. */
  lemma BlockedByObsolete(codec: Codec, fs: FileSystem, artifacts: seq<Artifact>, j: nat, path: string)
    requires Succeeds(codec, fs, artifacts) && j < |artifacts| && path in Ancestors(Path(artifacts, j))
    requires Revisited(codec, fs, artifacts, path)
    ensures Generate(codec, Generate(codec, fs, artifacts, j + 1).0, artifacts, |artifacts| + 1).1.Some?
  {
    var part := Generate(codec, fs, artifacts, j + 1).0;
    MadeDirectory(codec, fs, artifacts, j, path);
    InterruptedState(codec, fs, artifacts, j + 1);
    EntriesAgain(codec, fs, artifacts, j + 1);
    var entries := Entries(codec, fs);
    var i :| 0 <= i < |entries| && entries[i].path == path;
    RemoveEntriesEffect(part, entries, artifacts, path);
    assert !Removable(part, entries[i].path, artifacts);
    GenerateDecomposed(codec, part, artifacts);
  }

  /** Once a temporary's place has become a directory, no later run can use it. */
  lemma DirectoryBlocks(codec: Codec, fs: FileSystem, artifacts: seq<Artifact>, i: nat)
    requires i < |artifacts| && At(fs, TempPath(Path(artifacts, i))) == Some(Dir)
    ensures Generate(codec, fs, artifacts, |artifacts| + 1).1.Some?
  {
    var temp := TempPath(Path(artifacts, i));
    GenerateDecomposed(codec, fs, artifacts);
    if Generate(codec, fs, artifacts, |artifacts| + 1).1.None? {
      var cleared := Cleared(codec, fs, artifacts);
      var entries := Entries(codec, fs);
      RemoveEntriesEffect(fs, entries, artifacts, temp);
      ClearedEffect(codec, fs, artifacts, temp);
      PrefixSucceeds(cleared, artifacts, i);
      DirStays(cleared, artifacts[..i], temp);
    }
  }

  /** Every interruption of a generation can be finished by running it again, and ends in the
      very file system one uninterrupted run reaches, exactly when no temporary of the set and
      no obsolete path of the previous manifest is a directory above an artifact. */
  lemma InterruptionsRecoverable(codec: Codec, fs: FileSystem, artifacts: seq<Artifact>)
    requires Succeeds(codec, fs, artifacts)
    ensures Recoverable(codec, fs, artifacts) <==>
            forall n: nat :: n <= |artifacts| ==>
              (Generate(codec, Generate(codec, fs, artifacts, n).0, artifacts, |artifacts| + 1)
               == Generate(codec, fs, artifacts, |artifacts| + 1))
  {
    if Recoverable(codec, fs, artifacts) {
      forall n: nat | n <= |artifacts|
        ensures Generate(codec, Generate(codec, fs, artifacts, n).0, artifacts, |artifacts| + 1)
             == Generate(codec, fs, artifacts, |artifacts| + 1)
      {
        RetryCompletes(codec, fs, artifacts, n);
      }
    } else if !Separate(artifacts) {
      var i: nat, j: nat :|
        i < |artifacts| && j < |artifacts| && TempPath(Path(artifacts, i)) in Ancestors(Path(artifacts, j));
      MadeDirectory(codec, fs, artifacts, j, TempPath(Path(artifacts, i)));
      DirectoryBlocks(codec, Generate(codec, fs, artifacts, j + 1).0, artifacts, i);
    } else {
      var path, j: nat :|
        j < |artifacts| && Revisited(codec, fs, artifacts, path) && path in Ancestors(Path(artifacts, j));
      BlockedByObsolete(codec, fs, artifacts, j, path);
    }
  }

  // ----- Running again after completion -----

  lemma OwnManifestRemovesNothing(codec: Codec, fs: FileSystem, artifacts: seq<Artifact>)
    requires Lawful(codec) && ValidSet(artifacts)
    requires ReadRegular(fs, SET_MANIFEST) == Some(ManifestBytes(codec, artifacts))
    ensures if |ManifestBytes(codec, artifacts)| <= MAX_ARTIFACT_BYTES
            then RemoveObsolete(codec, fs, artifacts) == (fs, None)
            else RemoveObsolete(codec, fs, artifacts).1.Some?
  {
    var entries := ManifestOf(codec, artifacts).entries;
    forall i | 0 <= i < |entries|
      ensures ValidRelativePath(entries[i].path) && HasPath(artifacts, entries[i].path)
    {
      assert artifacts[i].path == entries[i].path;
    }
    NothingToRemove(fs, entries, artifacts);
  }

  lemma ManifestWritten(codec: Codec, fs: FileSystem, artifacts: seq<Artifact>)
    requires Succeeds(codec, fs, artifacts)
    ensures At(Generate(codec, fs, artifacts, |artifacts| + 1).0, SET_MANIFEST) ==
        Some(File(ManifestBytes(codec, artifacts)))
  {
    var list := WithManifest(codec, artifacts);
    SuccessParts(codec, fs, artifacts);
    LastEffectOf(list, |artifacts|, SET_MANIFEST);
    ReplaceAllEffect(Cleared(codec, fs, artifacts), list, SET_MANIFEST);
  }

  /** A finished generation can be run again, changing nothing, exactly when its manifest is
      within the size the next run accepts and no temporary is a directory above an artifact. */
  lemma RegenerationIsIdentity(codec: Codec, fs: FileSystem, artifacts: seq<Artifact>)
    requires Lawful(codec) && Succeeds(codec, fs, artifacts)
    ensures var done := Generate(codec, fs, artifacts, |artifacts| + 1).0;
      Generate(codec, done, artifacts, |artifacts| + 1) == (done, None)
      <==> |ManifestBytes(codec, artifacts)| <= MAX_ARTIFACT_BYTES && Separate(artifacts)
  {
    var done := Generate(codec, fs, artifacts, |artifacts| + 1).0;
    var list := WithManifest(codec, artifacts);
    SuccessParts(codec, fs, artifacts);
    ManifestWritten(codec, fs, artifacts);
    OwnManifestRemovesNothing(codec, done, artifacts);
    GenerateDecomposed(codec, done, artifacts);
    assert list[..|artifacts| + 1] == list;
    if Separate(artifacts) {
      if |ManifestBytes(codec, artifacts)| <= MAX_ARTIFACT_BYTES {
        ResumeCompletes(codec, fs, artifacts, |artifacts| + 1);
      }
    } else {
      var i: nat, j: nat :|
        i < |artifacts| && j < |artifacts| && TempPath(Path(artifacts, i)) in Ancestors(Path(artifacts, j));
      WithManifestPaths(codec, artifacts);
      assert Path(list, j) == Path(artifacts, j);
      DirMade(Cleared(codec, fs, artifacts), list, j, TempPath(Path(artifacts, i)));
      DirectoryBlocks(codec, done, artifacts, i);
    }
  }

  // ----- What a finished generation leaves -----

  /** No artifact is the temporary of a path replaced after it. */
  ghost predicate NoLaterTemporary(list: seq<Artifact>) {
    forall i: nat, j: nat :: i < j < |list| ==> TempPath(Path(list, j)) != Path(list, i)
  }

  lemma MatchKeptOnce(before: FileSystem, artifact: Artifact, path: string, bytes: Bytes)
    requires ReplaceFile(before, artifact.path, artifact.bytes).1.None?
    requires At(before, path) == Some(File(bytes)) && TempPath(artifact.path) != path
    requires artifact.path == path ==> artifact.bytes == bytes
    ensures At(ReplaceFile(before, artifact.path, artifact.bytes).0, path) == Some(File(bytes))
  {
    ReplaceEffect(before, artifact, path);
    if artifact.path != path {
      FileBlocks(before, artifact, path);
    }
  }

  lemma WrittenJustNow(before: FileSystem, artifact: Artifact)
    requires ReplaceFile(before, artifact.path, artifact.bytes).1.None?
    ensures At(ReplaceFile(before, artifact.path, artifact.bytes).0, artifact.path) == Some(File(artifact.bytes))
  {
  }

  lemma {:induction false} StaysFile(fs: FileSystem, list: seq<Artifact>, i: nat, j: nat)
    requires ReplaceAll(fs, list).1.None? && DistinctPaths(list) && NoLaterTemporary(list) && i < j <= |list|
    ensures At(ReplaceAll(fs, list[..j]).0, Path(list, i)) == Some(File(list[i].bytes))
  {
    var before := ReplaceAll(fs, list[..j - 1]).0;
    PrefixSucceeds(fs, list, j);
    PrefixSucceeds(fs, list, j - 1);
    assert list[..j][..j - 1] == list[..j - 1] && list[..j][j - 1] == list[j - 1];
    if i < j - 1 {
      StaysFile(fs, list, i, j - 1);
      assert TempPath(Path(list, j - 1)) != Path(list, i) && Path(list, j - 1) != Path(list, i);
      MatchKeptOnce(before, list[j - 1], Path(list, i), list[i].bytes);
    } else {
      WrittenJustNow(before, list[i]);
    }
  }

  lemma GeneratedReplaces(codec: Codec, fs: FileSystem, artifacts: seq<Artifact>)
    requires Succeeds(codec, fs, artifacts)
    ensures var list, cleared := WithManifest(codec, artifacts), Cleared(codec, fs, artifacts);
      && ReplaceAll(cleared, list) == (Generate(codec, fs, artifacts, |artifacts| + 1).0, None)
      && DistinctPaths(list) && forall i: nat :: i < |artifacts| ==> Path(list, i) == artifacts[i].path
  {
    SuccessParts(codec, fs, artifacts);
    WithManifestPaths(codec, artifacts);
  }

  lemma StaysToTheEnd(fs: FileSystem, list: seq<Artifact>, i: nat)
    requires ReplaceAll(fs, list).1.None? && DistinctPaths(list) && NoLaterTemporary(list) && i < |list|
    ensures At(ReplaceAll(fs, list).0, Path(list, i)) == Some(File(list[i].bytes))
  {
    StaysFile(fs, list, i, |list|);
    assert list[..|list|] == list;
  }

  /** An artifact that is a later temporary is gone at the end, or was put there by another. */
  lemma ClobberedAtTheEnd(fs: FileSystem, list: seq<Artifact>, i: nat, j: nat)
    requires ReplaceAll(fs, list).1.None? && DistinctPaths(list) && i < j < |list| &&
        TempPath(Path(list, j)) == Path(list, i)
    ensures At(ReplaceAll(fs, list).0, Path(list, i)) != Some(File(list[i].bytes))
  {
    assert list[..|list|] == list;
    var m := FoundAt(fs, list, |list|, Path(list, i));
    TempDiffers(Path(list, j));
    assert Effect(list[j], Path(list, i)).Some?;
    assert j <= m < |list| && Path(list, m) != Path(list, i);
  }

  /** A generation that reports success leaves every artifact and the manifest as expected
      exactly when no artifact is the temporary of a path replaced after it. */
  lemma GeneratedIsUpToDate(codec: Codec, fs: FileSystem, artifacts: seq<Artifact>)
    requires Succeeds(codec, fs, artifacts)
    ensures UpToDate(codec, Generate(codec, fs, artifacts, |artifacts| + 1).0, artifacts)
       <==> NoLaterTemporary(WithManifest(codec, artifacts))
  {
    var list, cleared := WithManifest(codec, artifacts), Cleared(codec, fs, artifacts);
    var done := Generate(codec, fs, artifacts, |artifacts| + 1).0;
    GeneratedReplaces(codec, fs, artifacts);
    ManifestWritten(codec, fs, artifacts);
    if NoLaterTemporary(list) {
      forall i | 0 <= i < |artifacts| ensures At(done, artifacts[i].path) == Some(File(artifacts[i].bytes)) {
        StaysToTheEnd(cleared, list, i);
      }
    } else {
      var i: nat, j: nat :| i < j < |list| && TempPath(Path(list, j)) == Path(list, i);
      ClobberedAtTheEnd(cleared, list, i, j);
      assert list[i] == artifacts[i];
    }
  }

  /** An effect on a path that is not written removes it or makes it a directory. */
  lemma EffectElsewhere(artifact: Artifact, path: string)
    requires artifact.path != path
    ensures Effect(artifact, path) in {None, Some(None), Some(Some(Dir))}
    ensures TempPath(artifact.path) == path ==> Effect(artifact, path) == Some(None)
  {
  }

  lemma TemporaryGone(cleared: FileSystem, list: seq<Artifact>, path: string, i: nat)
    requires ReplaceAll(cleared, list).1.None? && i < |list| && TempPath(Path(list, i)) == path
    requires forall k: nat :: k < |list| ==> Path(list, k) != path
    ensures var found := At(ReplaceAll(cleared, list).0, path); found == None || found == Some(Dir)
  {
    assert list[..|list|] == list;
    var m := FoundAt(cleared, list, |list|, path);
    EffectElsewhere(list[i], path);
    if m < |list| {
      assert Path(list, m) != path;
      EffectElsewhere(list[m], path);
    }
  }

  /** What a finished run leaves of a file that it neither writes nor removes as obsolete. */
  lemma OtherFileAfter(cleared: FileSystem, list: seq<Artifact>, path: string)
    requires ReplaceAll(cleared, list).1.None? && path in cleared && cleared[path].File?
    requires forall i: nat :: i < |list| ==> Path(list, i) != path
    ensures At(ReplaceAll(cleared, list).0, path) == At(cleared, path) <==>
              forall i: nat :: i < |list| ==> TempPath(Path(list, i)) != path
  {
    if i: nat :| i < |list| && TempPath(Path(list, i)) == path {
      TemporaryGone(cleared, list, path, i);
    } else {
      FileNotAbove(cleared, list, |list|, path);
      assert list[..|list|] == list;
    }
  }

  /** An obsolete file is not there afterwards. */
  lemma ObsoleteFileGone(cleared: FileSystem, list: seq<Artifact>, path: string)
    requires ReplaceAll(cleared, list).1.None? && path !in cleared
    requires forall k: nat :: k < |list| ==> Path(list, k) != path
    ensures var found := At(ReplaceAll(cleared, list).0, path); found == None || found == Some(Dir)
  {
    assert list[..|list|] == list;
    var m := FoundAt(cleared, list, |list|, path);
    if m < |list| {
      assert Path(list, m) != path;
      EffectElsewhere(list[m], path);
    }
  }

  lemma NotAPath(codec: Codec, artifacts: seq<Artifact>, path: string)
    requires path != SET_MANIFEST && !HasPath(artifacts, path)
    ensures forall i: nat :: i <= |artifacts| ==> Path(WithManifest(codec, artifacts), i) != path
  {
  }

  /** A file that is neither expected nor obsolete survives exactly when it is not the
      temporary of a path being replaced; no obsolete file survives. */
  lemma OtherFilesSurviveIff(codec: Codec, fs: FileSystem, artifacts: seq<Artifact>, path: string)
    requires Succeeds(codec, fs, artifacts)
    requires path in fs && fs[path].File? && path != SET_MANIFEST && !HasPath(artifacts, path)
    ensures var done := Generate(codec, fs, artifacts, |artifacts| + 1).0;
      if Dropped(Entries(codec, fs), artifacts, path) then !(path in done && done[path].File?)
      else At(done, path) == At(fs, path) <==>
           forall i: nat :: i <= |artifacts| ==> TempPath(Path(WithManifest(codec, artifacts), i)) != path
  {
    var list, cleared := WithManifest(codec, artifacts), Cleared(codec, fs, artifacts);
    SuccessParts(codec, fs, artifacts);
    ClearedEffect(codec, fs, artifacts, path);
    NotAPath(codec, artifacts, path);
    if Dropped(Entries(codec, fs), artifacts, path) {
      ObsoleteFileGone(cleared, list, path);
    } else {
      OtherFileAfter(cleared, list, path);
    }
  }

  lemma FileBlocks(fs: FileSystem, artifact: Artifact, path: string)
    requires Replaceable(fs, artifact.path) && path in fs && fs[path].File?
    requires artifact.path != path && TempPath(artifact.path) != path
    ensures Effect(artifact, path).None?
  {
  }

  /** A file that no replacement removes has nothing placed below it. */
  lemma {:induction false} FileNotAbove(fs: FileSystem, list: seq<Artifact>, n: nat, path: string)
    requires ReplaceAll(fs, list).1.None? && n <= |list| && path in fs && fs[path].File?
    requires forall i: nat :: i < |list| ==> Path(list, i) != path && TempPath(Path(list, i)) != path
    ensures At(ReplaceAll(fs, list[..n]).0, path) == At(fs, path)
  {
    if n > 0 {
      FileNotAbove(fs, list, n - 1, path);
      var before := ReplaceAll(fs, list[..n - 1]).0;
      PrefixSucceeds(fs, list, n - 1);
      PrefixSucceeds(fs, list, n);
      assert list[..n][..n - 1] == list[..n - 1] && list[..n][n - 1] == list[n - 1];
      assert Path(list, n - 1) != path && TempPath(Path(list, n - 1)) != path;
      FileBlocks(before, list[n - 1], path);
      ReplaceEffect(before, list[n - 1], path);
    }
  }

  // ----- The manifest comes last -----

  /** The expected manifest is not on disk unless every artifact matches. */
  ghost predicate Consistent(codec: Codec, fs: FileSystem, artifacts: seq<Artifact>) {
    At(fs, SET_MANIFEST) == Some(File(ManifestBytes(codec, artifacts))) ==> ArtifactsMatch(fs, artifacts)
  }

  /** No artifact is the temporary of any path of the set. */
  ghost predicate NoTemporary(list: seq<Artifact>) {
    forall i: nat, j: nat :: i < |list| && j < |list| ==> TempPath(Path(list, j)) != Path(list, i)
  }

  /** A crash among the removals leaves a consistent tree. */
  lemma RemovalKeepsConsistent(codec: Codec, fs: FileSystem, artifacts: seq<Artifact>, m: nat)
    requires Succeeds(codec, fs, artifacts) && Consistent(codec, fs, artifacts) && m <= |Entries(codec, fs)|
    ensures Consistent(codec, RemoveEntries(fs, Entries(codec, fs)[..m], artifacts).0, artifacts)
  {
    var entries := Entries(codec, fs);
    SuccessParts(codec, fs, artifacts);
    if RemoveEntries(fs, entries[..m], artifacts).1.Some? {
      EntriesFail(fs, entries, artifacts, m);
    }
    RemoveEntriesEffect(fs, entries[..m], artifacts, SET_MANIFEST);
    forall i | 0 <= i < |artifacts|
      ensures At(RemoveEntries(fs, entries[..m], artifacts).0, artifacts[i].path) == At(fs, artifacts[i].path)
    {
      RemoveEntriesEffect(fs, entries[..m], artifacts, artifacts[i].path);
    }
  }

  /** The tree after the first `n` replacements, the manifest's being the last. */
  function Replaced(codec: Codec, fs: FileSystem, artifacts: seq<Artifact>, n: nat): FileSystem
    requires n <= |artifacts| + 1
  {
    ReplaceAll(Cleared(codec, fs, artifacts), WithManifest(codec, artifacts)[..n]).0
  }

  /** Matching artifacts are rewritten in place, one by one, as long as none is a temporary. */
  lemma MatchKeptNext(fs: FileSystem, list: seq<Artifact>, i: nat, n: nat)
    requires ReplaceAll(fs, list).1.None? && DistinctPaths(list) && NoTemporary(list) && i < |list| && n < |list|
    requires At(ReplaceAll(fs, list[..n]).0, Path(list, i)) == Some(File(list[i].bytes))
    ensures At(ReplaceAll(fs, list[..n + 1]).0, Path(list, i)) == Some(File(list[i].bytes))
  {
    PrefixSucceeds(fs, list, n + 1);
    PrefixSucceeds(fs, list, n);
    assert list[..n + 1][..n] == list[..n] && list[..n + 1][n] == list[n];
    assert TempPath(Path(list, n)) != Path(list, i);
    assert Path(list, n) == Path(list, i) ==> i == n;
    MatchKeptOnce(ReplaceAll(fs, list[..n]).0, list[n], Path(list, i), list[i].bytes);
  }

  lemma {:induction false} MatchKept(fs: FileSystem, list: seq<Artifact>, i: nat, n: nat)
    requires ReplaceAll(fs, list).1.None? && DistinctPaths(list) && NoTemporary(list) && i < |list| && n <= |list|
    requires At(fs, Path(list, i)) == Some(File(list[i].bytes))
    ensures At(ReplaceAll(fs, list[..n]).0, Path(list, i)) == Some(File(list[i].bytes))
  {
    if n > 0 {
      MatchKept(fs, list, i, n - 1);
      MatchKeptNext(fs, list, i, n - 1);
    }
  }

  lemma ManifestAt(codec: Codec, fs: FileSystem, artifacts: seq<Artifact>, n: nat)
    requires Succeeds(codec, fs, artifacts) && n <= |artifacts|
    ensures At(Replaced(codec, fs, artifacts, n), SET_MANIFEST)
         == if Dropped(Entries(codec, fs), artifacts, SET_MANIFEST) then None else At(fs, SET_MANIFEST)
  {
    SuccessParts(codec, fs, artifacts);
    WithManifestPaths(codec, artifacts);
    ManifestUntouched(codec, fs, artifacts, n);
    ClearedEffect(codec, fs, artifacts, SET_MANIFEST);
  }

  lemma StaleManifestConsistent(codec: Codec, fs: FileSystem, artifacts: seq<Artifact>, n: nat)
    requires Succeeds(codec, fs, artifacts) && n <= |artifacts| + 1
    requires At(fs, SET_MANIFEST) != Some(File(ManifestBytes(codec, artifacts)))
    ensures n <= |artifacts| ==> Consistent(codec, Replaced(codec, fs, artifacts, n), artifacts)
    ensures n == |artifacts| + 1 ==>
              (Consistent(codec, Replaced(codec, fs, artifacts, n), artifacts) <==>
                NoLaterTemporary(WithManifest(codec, artifacts)))
  {
    if n <= |artifacts| {
      ManifestAt(codec, fs, artifacts, n);
    } else {
      SuccessParts(codec, fs, artifacts);
      assert WithManifest(codec, artifacts)[..n] == WithManifest(codec, artifacts);
      GeneratedIsUpToDate(codec, fs, artifacts);
      ManifestWritten(codec, fs, artifacts);
    }
  }

  lemma CurrentManifestCleared(codec: Codec, fs: FileSystem, artifacts: seq<Artifact>)
    requires Lawful(codec) && Succeeds(codec, fs, artifacts)
    requires At(fs, SET_MANIFEST) == Some(File(ManifestBytes(codec, artifacts)))
    ensures Cleared(codec, fs, artifacts) == fs
  {
    SuccessParts(codec, fs, artifacts);
    OwnManifestRemovesNothing(codec, fs, artifacts);
  }

  lemma CurrentManifestConsistent(codec: Codec, fs: FileSystem, artifacts: seq<Artifact>, n: nat)
    requires Lawful(codec) && Succeeds(codec, fs, artifacts) && n <= |artifacts| + 1
    requires UpToDate(codec, fs, artifacts) && NoTemporary(WithManifest(codec, artifacts))
    ensures Consistent(codec, Replaced(codec, fs, artifacts, n), artifacts)
  {
    var list := WithManifest(codec, artifacts);
    SuccessParts(codec, fs, artifacts);
    WithManifestPaths(codec, artifacts);
    CurrentManifestCleared(codec, fs, artifacts);
    forall i | 0 <= i < |artifacts|
      ensures At(Replaced(codec, fs, artifacts, n), artifacts[i].path) == Some(File(artifacts[i].bytes))
    {
      assert Path(list, i) == artifacts[i].path;
      MatchKept(fs, list, i, n);
    }
  }

  lemma TemporaryRemoved(fs: FileSystem, list: seq<Artifact>, path: string, j: nat)
    requires ReplaceAll(fs, list).1.None? && j < |list| && TempPath(Path(list, j)) == path
    ensures At(ReplaceAll(fs, list[..j + 1]).0, path) == None
  {
    PrefixSucceeds(fs, list, j);
    PrefixSucceeds(fs, list, j + 1);
    assert list[..j + 1][..j] == list[..j] && list[..j + 1][j] == list[j];
    TempDiffers(Path(list, j));
    ReplaceEffect(ReplaceAll(fs, list[..j]).0, list[j], path);
  }

  lemma TemporaryBreaks(codec: Codec, fs: FileSystem, artifacts: seq<Artifact>, i: nat, j: nat)
    requires Lawful(codec) && Succeeds(codec, fs, artifacts)
    requires At(fs, SET_MANIFEST) == Some(File(ManifestBytes(codec, artifacts)))
    requires i < |artifacts| && j <= |artifacts|
    requires TempPath(Path(WithManifest(codec, artifacts), j)) == artifacts[i].path
    ensures !Consistent(codec, Replaced(codec, fs, artifacts, j + 1), artifacts)
  {
    var list := WithManifest(codec, artifacts);
    SuccessParts(codec, fs, artifacts);
    TemporaryRemoved(Cleared(codec, fs, artifacts), list, artifacts[i].path, j);
    if j < |artifacts| {
      CurrentManifestCleared(codec, fs, artifacts);
      WithManifestPaths(codec, artifacts);
      ManifestUntouched(codec, fs, artifacts, j + 1);
    } else {
      assert list[..j + 1] == list;
      ManifestWritten(codec, fs, artifacts);
    }
  }

  ghost predicate AlwaysConsistent(codec: Codec, fs: FileSystem, artifacts: seq<Artifact>) {
    forall n: nat :: n <= |artifacts| + 1 ==> Consistent(codec, Replaced(codec, fs, artifacts, n), artifacts)
  }

  lemma CurrentManifestBreaks(codec: Codec, fs: FileSystem, artifacts: seq<Artifact>)
    requires Lawful(codec) && Succeeds(codec, fs, artifacts) && !NoTemporary(WithManifest(codec, artifacts))
    requires At(fs, SET_MANIFEST) == Some(File(ManifestBytes(codec, artifacts)))
    ensures !AlwaysConsistent(codec, fs, artifacts)
  {
    var list := WithManifest(codec, artifacts);
    var i: nat, j: nat :| i < |list| && j < |list| && TempPath(Path(list, j)) == Path(list, i);
    TemporaryNames(Path(list, j));
    TemporaryBreaks(codec, fs, artifacts, i, j);
  }

  lemma CurrentManifestIff(codec: Codec, fs: FileSystem, artifacts: seq<Artifact>)
    requires Lawful(codec) && Succeeds(codec, fs, artifacts) && Consistent(codec, fs, artifacts)
    requires At(fs, SET_MANIFEST) == Some(File(ManifestBytes(codec, artifacts)))
    ensures AlwaysConsistent(codec, fs, artifacts) <==> NoTemporary(WithManifest(codec, artifacts))
  {
    if NoTemporary(WithManifest(codec, artifacts)) {
      forall n: nat | n <= |artifacts| + 1 ensures Consistent(codec, Replaced(codec, fs, artifacts, n), artifacts) {
        CurrentManifestConsistent(codec, fs, artifacts, n);
      }
    } else {
      CurrentManifestBreaks(codec, fs, artifacts);
    }
  }

  lemma StaleManifestIff(codec: Codec, fs: FileSystem, artifacts: seq<Artifact>)
    requires Lawful(codec) && Succeeds(codec, fs, artifacts) && Consistent(codec, fs, artifacts)
    requires At(fs, SET_MANIFEST) != Some(File(ManifestBytes(codec, artifacts)))
    ensures AlwaysConsistent(codec, fs, artifacts) <==> NoLaterTemporary(WithManifest(codec, artifacts))
  {
    forall n: nat | n <= |artifacts| ensures Consistent(codec, Replaced(codec, fs, artifacts, n), artifacts) {
      StaleManifestConsistent(codec, fs, artifacts, n);
    }
    StaleManifestConsistent(codec, fs, artifacts, |artifacts| + 1);
  }

  /** From a consistent tree, the new manifest is never on disk before all its artifacts match,
      exactly when no artifact is the temporary of a later replacement, or of any replacement if
      that manifest was already there. */
  lemma ManifestNeverEarly(codec: Codec, fs: FileSystem, artifacts: seq<Artifact>)
    requires Lawful(codec) && Succeeds(codec, fs, artifacts) && Consistent(codec, fs, artifacts)
    ensures AlwaysConsistent(codec, fs, artifacts)
      <==> if At(fs, SET_MANIFEST) == Some(File(ManifestBytes(codec, artifacts)))
           then NoTemporary(WithManifest(codec, artifacts)) else NoLaterTemporary(WithManifest(codec, artifacts))
  {
    if At(fs, SET_MANIFEST) == Some(File(ManifestBytes(codec, artifacts))) {
      CurrentManifestIff(codec, fs, artifacts);
    } else {
      StaleManifestIff(codec, fs, artifacts);
    }
  }
}
