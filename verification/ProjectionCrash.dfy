/** A crash inside one replacement: parents made, the temporary half written, nothing renamed. */
module ProjectionCrash {
  import opened Wrappers
  import opened Framing
  import opened Projection
  import opened ProjectionSafety
  import opened ProjectionRecovery

  /** `fs` with the replacement of `path` torn: its temporary holds `partial`. */
  function Torn(fs: FileSystem, path: string, partial: Bytes): FileSystem {
    CreateDirs(fs, path)[TempPath(path) := File(partial)]
  }

  /** The tree after `n` replacements and a torn one. */
  function TornAfter(codec: Codec, fs: FileSystem, artifacts: seq<Artifact>, n: nat, partial: Bytes): FileSystem
    requires n <= |artifacts|
  {
    Torn(ReplaceAll(Cleared(codec, fs, artifacts), artifacts[..n]).0, Path(WithManifest(codec, artifacts), n), partial)
  }

  lemma TornAt(fs: FileSystem, path: string, partial: Bytes, x: string)
    requires Replaceable(fs, path)
    ensures At(Torn(fs, path, partial), x) ==
            if x == TempPath(path) then Some(File(partial))
            else if x in Ancestors(path) then Some(Dir)
            else At(fs, x)
  {
    TempDiffers(path);
  }

  /** A torn tree admits every replacement the tree before it did. */
  lemma TornCompatible(fs: FileSystem, list: seq<Artifact>, n: nat, partial: Bytes, torn: FileSystem)
    requires Compatible(fs, list) && Separate(list) && AncestorFree(list) && n < |list|
    requires forall x :: x in torn ==> At(torn, x) == At(Torn(fs, Path(list, n), partial), x)
    ensures Compatible(torn, list)
  {
    var p := Path(list, n);
    assert Replaceable(fs, p);
    forall j: nat | j < |list| ensures Replaceable(torn, Path(list, j)) {
      var q := Path(list, j);
      assert Replaceable(fs, q);
      forall a | a in Ancestors(q) && a in torn ensures torn[a].Dir? {
        TornAt(fs, p, partial, a);
        assert TempPath(p) !in Ancestors(q);
      }
      TornAt(fs, p, partial, TempPath(q));
      assert TempPath(q) !in Ancestors(p);
      TornAt(fs, p, partial, q);
      assert q !in Ancestors(p);
    }
  }

  lemma ReplacesAlike(a: FileSystem, b: FileSystem, list: seq<Artifact>)
    requires Compatible(a, list) && Compatible(b, list) && Separate(list) && AncestorFree(list)
    requires forall x :: LastEffect(list, x).None? ==> At(a, x) == At(b, x)
    ensures ReplaceAll(a, list) == ReplaceAll(b, list)
  {
    assert list[..|list|] == list;
    CompatibleSucceeds(a, list, |list|);
    CompatibleSucceeds(b, list, |list|);
    forall x ensures At(ReplaceAll(a, list).0, x) == At(ReplaceAll(b, list).0, x) {
      ReplaceAllEffect(a, list, x);
      ReplaceAllEffect(b, list, x);
    }
    SameFileSystem(ReplaceAll(a, list).0, ReplaceAll(b, list).0);
  }

  /** The retry's outputs are safe to write. */
  lemma TornIsSafe(fs: FileSystem, list: seq<Artifact>, n: nat, j: nat, partial: Bytes)
    requires n < |list| && j < |list| && Replaceable(fs, Path(list, n)) && Separate(list) && AncestorFree(list)
    requires SafeOutput(fs, Path(list, j))
    ensures SafeOutput(Torn(fs, Path(list, n), partial), Path(list, j))
  {
    var p, q := Path(list, n), Path(list, j);
    var torn := Torn(fs, p, partial);
    forall a | a in Ancestors(q) && a in torn ensures torn[a].Dir? {
      TornAt(fs, p, partial, a);
      assert TempPath(p) !in Ancestors(q);
    }
    TornAt(fs, p, partial, q);
    assert q !in Ancestors(p);
  }

  // ----- The retry's removals -----

  /** No directory above the torn path is an obsolete path the retry will meet again. */
  predicate ParentsNotRevisited(codec: Codec, fs: FileSystem, artifacts: seq<Artifact>, path: string) {
    forall a :: a in Ancestors(path) ==> !Revisited(codec, fs, artifacts, a)
  }

  lemma EntriesInTorn(codec: Codec, fs: FileSystem, artifacts: seq<Artifact>, n: nat, partial: Bytes)
    requires Succeeds(codec, fs, artifacts) && Separate(artifacts) && n <= |artifacts|
    ensures PreviousEntries(codec, TornAfter(codec, fs, artifacts, n, partial))
         == PreviousEntries(codec, ReplaceAll(Cleared(codec, fs, artifacts), artifacts[..n]).0)
  {
    var part := ReplaceAll(Cleared(codec, fs, artifacts), artifacts[..n]).0;
    var list := WithManifest(codec, artifacts);
    PartReplaceable(codec, fs, artifacts, n);
    TornAt(part, Path(list, n), partial, SET_MANIFEST);
    TemporaryNames(Path(list, n));
    ManifestNotAbove(codec, fs, artifacts, n);
  }

  lemma PartReplaceable(codec: Codec, fs: FileSystem, artifacts: seq<Artifact>, n: nat)
    requires Succeeds(codec, fs, artifacts) && n <= |artifacts|
    ensures Replaceable(ReplaceAll(Cleared(codec, fs, artifacts), artifacts[..n]).0,
        Path(WithManifest(codec, artifacts), n))
  {
    SuccessParts(codec, fs, artifacts);
    WithManifestPaths(codec, artifacts);
    PrefixSucceeds(Cleared(codec, fs, artifacts), WithManifest(codec, artifacts), n);
  }

  lemma ManifestNotAbove(codec: Codec, fs: FileSystem, artifacts: seq<Artifact>, n: nat)
    requires Succeeds(codec, fs, artifacts) && Separate(artifacts) && n <= |artifacts|
    ensures SET_MANIFEST !in Ancestors(Path(WithManifest(codec, artifacts), n))
  {
    ResumeBase(codec, fs, artifacts, n);
    WithManifestPaths(codec, artifacts);
    assert Path(WithManifest(codec, artifacts), |artifacts|) == SET_MANIFEST;
  }

  /** A revisited path found in a torn tree is its temporary. */
  lemma RevisitedInTorn(codec: Codec, fs: FileSystem, artifacts: seq<Artifact>, n: nat, partial: Bytes, x: string)
    requires Succeeds(codec, fs, artifacts) && Recoverable(codec, fs, artifacts) && n <= |artifacts|
    requires ParentsNotRevisited(codec, fs, artifacts, Path(WithManifest(codec, artifacts), n))
    requires Revisited(codec, fs, artifacts, x) && x in TornAfter(codec, fs, artifacts, n, partial)
    ensures x == TempPath(Path(WithManifest(codec, artifacts), n))
  {
    NothingObsoleteLeft(codec, fs, artifacts, n, x);
    PartReplaceable(codec, fs, artifacts, n);
    var part := ReplaceAll(Cleared(codec, fs, artifacts), artifacts[..n]).0;
    TornAt(part, Path(WithManifest(codec, artifacts), n), partial, x);
  }

  /** Of the torn tree the retry removes at most the temporary, where that is obsolete. */
  lemma RetryRemovals(codec: Codec, fs: FileSystem, artifacts: seq<Artifact>, n: nat, partial: Bytes)
    requires Succeeds(codec, fs, artifacts) && Recoverable(codec, fs, artifacts) && n <= |artifacts|
    requires ParentsNotRevisited(codec, fs, artifacts, Path(WithManifest(codec, artifacts), n))
    ensures var torn := TornAfter(codec, fs, artifacts, n, partial);
      && RemoveObsolete(codec, torn, artifacts).1.None?
      && forall x :: At(Cleared(codec, torn, artifacts), x) ==
                     if Revisited(codec, fs, artifacts, x) then None else At(torn, x)
    ensures forall x :: Revisited(codec, fs, artifacts, x) && x in TornAfter(codec, fs, artifacts, n, partial) ==>
              x == TempPath(Path(WithManifest(codec, artifacts), n))
  {
    forall x | Revisited(codec, fs, artifacts, x) && x in TornAfter(codec, fs, artifacts, n, partial)
      ensures x == TempPath(Path(WithManifest(codec, artifacts), n))
    {
      RevisitedInTorn(codec, fs, artifacts, n, partial, x);
    }
    var part := ReplaceAll(Cleared(codec, fs, artifacts), artifacts[..n]).0;
    var torn := TornAfter(codec, fs, artifacts, n, partial);
    EntriesInTorn(codec, fs, artifacts, n, partial);
    EntriesAgain(codec, fs, artifacts, n);
    if Dropped(Entries(codec, fs), artifacts, SET_MANIFEST) {
      assert RemoveObsolete(codec, torn, artifacts) == (torn, None);
    } else {
      var entries := Entries(codec, fs);
      forall i | 0 <= i < |entries| ensures Removable(torn, entries[i].path, artifacts) {
        RetryEntry(codec, fs, artifacts, n, partial, i);
      }
      RemovableSucceeds(torn, entries, artifacts);
      forall x
        ensures At(Cleared(codec, torn, artifacts), x) ==
                if Revisited(codec, fs, artifacts, x) then None else At(torn, x)
      {
        RemoveEntriesEffect(torn, entries, artifacts, x);
      }
    }
  }

  lemma RetryEntry(codec: Codec, fs: FileSystem, artifacts: seq<Artifact>, n: nat, partial: Bytes, i: nat)
    requires Succeeds(codec, fs, artifacts) && Recoverable(codec, fs, artifacts) && n <= |artifacts|
    requires ParentsNotRevisited(codec, fs, artifacts, Path(WithManifest(codec, artifacts), n))
    requires !Dropped(Entries(codec, fs), artifacts, SET_MANIFEST) && i < |Entries(codec, fs)|
    ensures Removable(TornAfter(codec, fs, artifacts, n, partial), Entries(codec, fs)[i].path, artifacts)
  {
    var part := ReplaceAll(Cleared(codec, fs, artifacts), artifacts[..n]).0;
    var entries := Entries(codec, fs);
    var path := entries[i].path;
    SuccessParts(codec, fs, artifacts);
    RemoveEntriesEffect(fs, entries, artifacts, SET_MANIFEST);
    assert Removable(fs, path, artifacts);
    if !HasPath(artifacts, path) {
      assert Revisited(codec, fs, artifacts, path);
      NothingObsoleteLeft(codec, fs, artifacts, n, path);
      PartReplaceable(codec, fs, artifacts, n);
      TornAt(part, Path(WithManifest(codec, artifacts), n), partial, path);
    }
  }

  lemma {:induction false} RemovableSucceeds(fs: FileSystem, entries: seq<ManifestEntry>, artifacts: seq<Artifact>)
    requires forall i :: 0 <= i < |entries| ==> Removable(fs, entries[i].path, artifacts)
    ensures RemoveEntries(fs, entries, artifacts).1.None?
  {
    if entries != [] {
      var n := |entries| - 1;
      RemovableSucceeds(fs, entries[..n], artifacts);
      RemoveEntriesEffect(fs, entries[..n], artifacts, entries[n].path);
      assert Removable(fs, entries[n].path, artifacts);
    }
  }

  // ----- A crash among the removals -----

  lemma RemovedPrefix(codec: Codec, fs: FileSystem, artifacts: seq<Artifact>, m: nat, path: string)
    requires Succeeds(codec, fs, artifacts) && m <= |Entries(codec, fs)|
    ensures var part := RemoveEntries(fs, Entries(codec, fs)[..m], artifacts).0;
      At(part, path) == if Dropped(Entries(codec, fs)[..m], artifacts, path) then None else At(fs, path)
  {
    SuccessParts(codec, fs, artifacts);
    if RemoveEntries(fs, Entries(codec, fs)[..m], artifacts).1.Some? {
      EntriesFail(fs, Entries(codec, fs), artifacts, m);
    }
    RemoveEntriesEffect(fs, Entries(codec, fs)[..m], artifacts, path);
  }

  lemma ListedInPrefix(entries: seq<ManifestEntry>, m: nat, path: string)
    requires m <= |entries| && Listed(entries[..m], path)
    ensures Listed(entries, path)
  {
    var i :| 0 <= i < m && entries[..m][i].path == path;
    assert entries[i].path == path;
  }

  /** Until the previous manifest is itself removed, a retry repeats the removals. */
  lemma RemovalsResume(codec: Codec, fs: FileSystem, artifacts: seq<Artifact>, m: nat)
    requires Succeeds(codec, fs, artifacts) && m <= |Entries(codec, fs)|
    requires !Dropped(Entries(codec, fs)[..m], artifacts, SET_MANIFEST)
    ensures var part := RemoveEntries(fs, Entries(codec, fs)[..m], artifacts).0;
      RemoveObsolete(codec, part, artifacts) == (Cleared(codec, fs, artifacts), None)
  {
    var entries := Entries(codec, fs);
    var part := RemoveEntries(fs, entries[..m], artifacts).0;
    SuccessParts(codec, fs, artifacts);
    RemoveEntriesEffect(fs, entries, artifacts, SET_MANIFEST);
    RemovedPrefix(codec, fs, artifacts, m, SET_MANIFEST);
    assert PreviousEntries(codec, part) == PreviousEntries(codec, fs);
    forall i | 0 <= i < |entries| ensures Removable(part, entries[i].path, artifacts) {
      assert Removable(fs, entries[i].path, artifacts);
      RemovedPrefix(codec, fs, artifacts, m, entries[i].path);
    }
    RemovableSucceeds(part, entries, artifacts);
    forall x ensures At(RemoveEntries(part, entries, artifacts).0, x) == At(Cleared(codec, fs, artifacts), x) {
      RemoveEntriesEffect(part, entries, artifacts, x);
      RemovedPrefix(codec, fs, artifacts, m, x);
      ClearedEffect(codec, fs, artifacts, x);
      if Listed(entries[..m], x) {
        ListedInPrefix(entries, m, x);
      }
    }
    SameFileSystem(RemoveEntries(part, entries, artifacts).0, Cleared(codec, fs, artifacts));
  }

  lemma RemovedIsSafe(codec: Codec, fs: FileSystem, artifacts: seq<Artifact>, m: nat)
    requires Succeeds(codec, fs, artifacts) && m <= |Entries(codec, fs)|
    ensures ValidateOutputRoot(RemoveEntries(fs, Entries(codec, fs)[..m], artifacts).0, artifacts).None?
  {
    var part := RemoveEntries(fs, Entries(codec, fs)[..m], artifacts).0;
    SuccessParts(codec, fs, artifacts);
    forall i | 0 <= i < |artifacts| ensures SafeOutput(part, artifacts[i].path) {
      assert SafeOutput(fs, artifacts[i].path);
      forall a ensures a in part ==> At(part, a) == At(fs, a) {
        RemovedPrefix(codec, fs, artifacts, m, a);
      }
    }
    ValidateIff(part, artifacts);
  }

  /** An obsolete file the crash left on disk. */
  predicate LeftBehind(codec: Codec, fs: FileSystem, artifacts: seq<Artifact>, m: nat, path: string)
    requires m <= |Entries(codec, fs)|
  {
    path in fs && Dropped(Entries(codec, fs), artifacts, path) && !Listed(Entries(codec, fs)[..m], path)
  }

  /** The replacements remove the path as a temporary, and place nothing below it. */
  ghost predicate Swept(list: seq<Artifact>, path: string) {
    && (exists i: nat :: i < |list| && TempPath(Path(list, i)) == path)
    && forall i: nat :: i < |list| ==> path !in Ancestors(Path(list, i))
  }

  /** `a` is `b` with some more files, all of which the replacements sweep away. */
  ghost predicate MoreSwept(a: FileSystem, b: FileSystem, list: seq<Artifact>) {
    forall x :: At(a, x) == At(b, x) || (Swept(list, x) && x in a && a[x].File? && x !in b)
  }

  lemma SweptStep(a: FileSystem, b: FileSystem, list: seq<Artifact>, n: nat)
    requires MoreSwept(a, b, list) && n < |list| && ReplaceFile(b, list[n].path, list[n].bytes).1.None?
    ensures ReplaceFile(a, list[n].path, list[n].bytes).1.None?
    ensures MoreSwept(
        ReplaceFile(a, list[n].path, list[n].bytes).0, ReplaceFile(b, list[n].path, list[n].bytes).0, list)
  {
    var path := Path(list, n);
    ReplaceEffect(b, list[n], path);
    forall y | y in Ancestors(path) && y in a ensures a[y].Dir? {
      assert At(a, y) == At(b, y);
    }
    assert At(a, TempPath(path)) == At(b, TempPath(path)) || a[TempPath(path)].File?;
    assert At(a, path) == At(b, path) || a[path].File?;
    ReplaceEffect(a, list[n], path);
    var nextA, nextB := ReplaceFile(a, list[n].path, list[n].bytes).0, ReplaceFile(b, list[n].path, list[n].bytes).0;
    forall x ensures At(nextA, x) == At(nextB, x) || (Swept(list, x) && x in nextA && nextA[x].File? && x !in nextB) {
      ReplaceEffect(a, list[n], x);
      ReplaceEffect(b, list[n], x);
      assert At(a, x) == At(b, x) || (Swept(list, x) && At(a, x) == Some(a[x]) && a[x].File? && At(b, x) == None);
    }
  }

  lemma SweptNext(a: FileSystem, b: FileSystem, list: seq<Artifact>, n: nat)
    requires n < |list| && ReplaceAll(a, list[..n]).1.None? && ReplaceAll(b, list).1.None?
    requires MoreSwept(ReplaceAll(a, list[..n]).0, ReplaceAll(b, list[..n]).0, list)
    ensures ReplaceAll(a, list[..n + 1]).1.None?
    ensures MoreSwept(ReplaceAll(a, list[..n + 1]).0, ReplaceAll(b, list[..n + 1]).0, list)
  {
    PrefixSucceeds(b, list, n);
    PrefixSucceeds(b, list, n + 1);
    ReplaceNext(b, list, n);
    ReplaceNext(a, list, n);
    SweptStep(ReplaceAll(a, list[..n]).0, ReplaceAll(b, list[..n]).0, list, n);
  }

  lemma {:induction false} SweptAlong(a: FileSystem, b: FileSystem, list: seq<Artifact>, n: nat)
    requires MoreSwept(a, b, list) && ReplaceAll(b, list).1.None? && n <= |list|
    ensures ReplaceAll(a, list[..n]).1.None?
    ensures MoreSwept(ReplaceAll(a, list[..n]).0, ReplaceAll(b, list[..n]).0, list)
  {
    if n > 0 {
      SweptAlong(a, b, list, n - 1);
      SweptNext(a, b, list, n - 1);
    }
  }

  lemma SweptHasEffect(list: seq<Artifact>, x: string)
    requires Swept(list, x)
    ensures LastEffect(list, x).Some?
  {
    var i: nat :| i < |list| && TempPath(Path(list, i)) == x;
    TempDiffers(Path(list, i));
    assert Effect(list[i], x) == Some(None);
    if LastEffect(list, x).None? {
      NoEffects(list, x);
    }
  }

  lemma SweptAlikeAt(a: FileSystem, b: FileSystem, list: seq<Artifact>, x: string)
    requires ReplaceAll(a, list).1.None? && ReplaceAll(b, list).1.None?
    requires At(a, x) == At(b, x) || Swept(list, x)
    ensures At(ReplaceAll(a, list).0, x) == At(ReplaceAll(b, list).0, x)
  {
    ReplaceAllEffect(a, list, x);
    ReplaceAllEffect(b, list, x);
    if Swept(list, x) {
      SweptHasEffect(list, x);
    }
  }

  /** Files that are swept away make no difference in the end. */
  lemma SweptAlike(a: FileSystem, b: FileSystem, list: seq<Artifact>)
    requires MoreSwept(a, b, list) && ReplaceAll(b, list).1.None?
    ensures ReplaceAll(a, list) == ReplaceAll(b, list)
  {
    SweptAlong(a, b, list, |list|);
    assert list[..|list|] == list;
    forall x ensures At(ReplaceAll(a, list).0, x) == At(ReplaceAll(b, list).0, x) {
      SweptAlikeAt(a, b, list, x);
    }
    SameFileSystem(ReplaceAll(a, list).0, ReplaceAll(b, list).0);
  }

  /** Once the previous manifest is gone, the retry removes nothing. */
  lemma NothingKnown(codec: Codec, fs: FileSystem, artifacts: seq<Artifact>, m: nat)
    requires Succeeds(codec, fs, artifacts) && m <= |Entries(codec, fs)|
    requires Dropped(Entries(codec, fs)[..m], artifacts, SET_MANIFEST)
    ensures var part := RemoveEntries(fs, Entries(codec, fs)[..m], artifacts).0;
      RemoveObsolete(codec, part, artifacts) == (part, None)
  {
    RemovedPrefix(codec, fs, artifacts, m, SET_MANIFEST);
  }

  lemma LeftBehindDiffer(codec: Codec, fs: FileSystem, artifacts: seq<Artifact>, m: nat, x: string)
    requires Succeeds(codec, fs, artifacts) && m <= |Entries(codec, fs)|
    ensures var part, cleared := RemoveEntries(fs, Entries(codec, fs)[..m], artifacts).0, Cleared(codec, fs, artifacts);
      if LeftBehind(codec, fs, artifacts, m, x) then x in part && part[x].File? && part[x] == fs[x] && x !in cleared
      else At(part, x) == At(cleared, x)
  {
    var entries := Entries(codec, fs);
    SuccessParts(codec, fs, artifacts);
    RemovedPrefix(codec, fs, artifacts, m, x);
    ClearedEffect(codec, fs, artifacts, x);
    RemoveEntriesEffect(fs, entries, artifacts, x);
    if Listed(entries[..m], x) {
      ListedInPrefix(entries, m, x);
    }
    if Listed(entries, x) {
      var i :| 0 <= i < |entries| && entries[i].path == x;
      assert Removable(fs, entries[i].path, artifacts);
    }
  }

  lemma SweptRemovalHeals(codec: Codec, fs: FileSystem, artifacts: seq<Artifact>, m: nat)
    requires Succeeds(codec, fs, artifacts) && m <= |Entries(codec, fs)|
    requires Dropped(Entries(codec, fs)[..m], artifacts, SET_MANIFEST)
    requires forall x :: LeftBehind(codec, fs, artifacts, m, x) ==> Swept(WithManifest(codec, artifacts), x)
    ensures Generate(codec, RemoveEntries(fs, Entries(codec, fs)[..m], artifacts).0, artifacts, |artifacts| + 1)
         == Generate(codec, fs, artifacts, |artifacts| + 1)
  {
    var part, cleared := RemoveEntries(fs, Entries(codec, fs)[..m], artifacts).0, Cleared(codec, fs, artifacts);
    var list := WithManifest(codec, artifacts);
    SuccessParts(codec, fs, artifacts);
    NothingKnown(codec, fs, artifacts, m);
    RemovedIsSafe(codec, fs, artifacts, m);
    forall x ensures At(part, x) == At(cleared, x) || (Swept(list, x) && x in part && part[x].File? && x !in cleared) {
      LeftBehindDiffer(codec, fs, artifacts, m, x);
    }
    SweptAlike(part, cleared, list);
    GenerateDecomposed(codec, part, artifacts);
  }

  lemma FileNotAboveOutput(fs: FileSystem, artifacts: seq<Artifact>, x: string, j: nat)
    requires ValidateOutputRoot(fs, artifacts).None? && x in fs && fs[x].File? && j < |artifacts|
    ensures x !in Ancestors(Path(artifacts, j))
  {
    ValidateIff(fs, artifacts);
    assert SafeOutput(fs, artifacts[j].path);
  }

  /** No temporary that is a file stands above a path that is safe to write. */
  lemma TemporaryIsSwept(codec: Codec, fs: FileSystem, artifacts: seq<Artifact>, x: string, i: nat)
    requires ValidateOutputRoot(fs, artifacts).None? && x in fs && fs[x].File?
    requires i <= |artifacts| && TempPath(Path(WithManifest(codec, artifacts), i)) == x
    ensures Swept(WithManifest(codec, artifacts), x)
  {
    var list := WithManifest(codec, artifacts);
    TemporaryNames(Path(list, i));
    forall j: nat | j < |list| ensures x !in Ancestors(Path(list, j)) {
      if j < |artifacts| {
        FileNotAboveOutput(fs, artifacts, x, j);
        assert list[j] == artifacts[j];
      } else {
        assert Path(list, j) == SET_MANIFEST;
      }
    }
  }

  lemma UnsweptIsNoTemporary(codec: Codec, fs: FileSystem, artifacts: seq<Artifact>, x: string)
    requires ValidateOutputRoot(fs, artifacts).None? && x in fs && fs[x].File?
    requires !Swept(WithManifest(codec, artifacts), x)
    ensures forall i: nat :: i <= |artifacts| ==> TempPath(Path(WithManifest(codec, artifacts), i)) != x
  {
    if i: nat :| i <= |artifacts| && TempPath(Path(WithManifest(codec, artifacts), i)) == x {
      TemporaryIsSwept(codec, fs, artifacts, x, i);
    }
  }

  /** A file left behind and not swept is still there, or stops the retry. */
  lemma UnsweptRemovalFails(codec: Codec, fs: FileSystem, artifacts: seq<Artifact>, m: nat, x: string)
    requires Succeeds(codec, fs, artifacts) && m <= |Entries(codec, fs)|
    requires Dropped(Entries(codec, fs)[..m], artifacts, SET_MANIFEST)
    requires LeftBehind(codec, fs, artifacts, m, x) && !Swept(WithManifest(codec, artifacts), x)
    ensures Generate(codec, RemoveEntries(fs, Entries(codec, fs)[..m], artifacts).0, artifacts, |artifacts| + 1)
         != Generate(codec, fs, artifacts, |artifacts| + 1)
  {
    var part, cleared := RemoveEntries(fs, Entries(codec, fs)[..m], artifacts).0, Cleared(codec, fs, artifacts);
    var list := WithManifest(codec, artifacts);
    SuccessParts(codec, fs, artifacts);
    NothingKnown(codec, fs, artifacts, m);
    LeftBehindDiffer(codec, fs, artifacts, m, x);
    NotAPath(codec, artifacts, x);
    GenerateDecomposed(codec, part, artifacts);
    RemovedIsSafe(codec, fs, artifacts, m);
    if ReplaceAll(part, list).1.None? {
      UnsweptIsNoTemporary(codec, part, artifacts, x);
      OtherFileAfter(part, list, x);
      ObsoleteFileGone(cleared, list, x);
    }
  }

  /** A crash among the removals is healed by running again exactly when it left the previous
      manifest in place, or every obsolete file it left is swept away as a temporary. */
  lemma RemovalCrashHealsIff(codec: Codec, fs: FileSystem, artifacts: seq<Artifact>, m: nat)
    requires Succeeds(codec, fs, artifacts) && m <= |Entries(codec, fs)|
    ensures (Generate(codec, RemoveEntries(fs, Entries(codec, fs)[..m], artifacts).0, artifacts, |artifacts| + 1)
             == Generate(codec, fs, artifacts, |artifacts| + 1))
        <==> || !Dropped(Entries(codec, fs)[..m], artifacts, SET_MANIFEST)
             || forall x :: LeftBehind(codec, fs, artifacts, m, x) ==> Swept(WithManifest(codec, artifacts), x)
  {
    if !Dropped(Entries(codec, fs)[..m], artifacts, SET_MANIFEST) {
      SuccessParts(codec, fs, artifacts);
      RemovalsResume(codec, fs, artifacts, m);
      RemovedIsSafe(codec, fs, artifacts, m);
      GenerateDecomposed(codec, RemoveEntries(fs, Entries(codec, fs)[..m], artifacts).0, artifacts);
    } else if forall x :: LeftBehind(codec, fs, artifacts, m, x) ==> Swept(WithManifest(codec, artifacts), x) {
      SweptRemovalHeals(codec, fs, artifacts, m);
    } else {
      var x :| LeftBehind(codec, fs, artifacts, m, x) && !Swept(WithManifest(codec, artifacts), x);
      UnsweptRemovalFails(codec, fs, artifacts, m, x);
    }
  }

  /** The manifest of a valid set does not list itself, so after such a set any crash among the
      next run's removals is healed. */
  lemma RemovalCrashHeals(codec: Codec, fs: FileSystem, previous: seq<Artifact>, artifacts: seq<Artifact>, m: nat)
    requires Lawful(codec) && ValidSet(previous)
    requires ReadRegular(fs, SET_MANIFEST) == Some(ManifestBytes(codec, previous))
    requires Succeeds(codec, fs, artifacts) && m <= |Entries(codec, fs)|
    ensures Generate(codec, RemoveEntries(fs, Entries(codec, fs)[..m], artifacts).0, artifacts, |artifacts| + 1)
         == Generate(codec, fs, artifacts, |artifacts| + 1)
  {
    SuccessParts(codec, fs, artifacts);
    assert codec.decode(codec.encode(ManifestOf(codec, previous))) == Some(ManifestOf(codec, previous));
    assert Entries(codec, fs) == ManifestOf(codec, previous).entries;
    NotSelfListed(codec, previous, m);
    RemovalCrashHealsIff(codec, fs, artifacts, m);
  }

  lemma NotSelfListed(codec: Codec, previous: seq<Artifact>, m: nat)
    requires ValidSet(previous) && m <= |previous|
    ensures !Listed(ManifestOf(codec, previous).entries[..m], SET_MANIFEST)
  {
    var entries := ManifestOf(codec, previous).entries;
    forall i | 0 <= i < m ensures entries[..m][i].path != SET_MANIFEST {
      assert entries[..m][i].path == previous[i].path;
    }
  }

  // ----- A crash inside a replacement -----

  /** A crash inside any replacement is healed by running again: the retry ends in the very tree
      of one uninterrupted run, whatever part of the temporary was written. */
  lemma TornReplacementHeals(codec: Codec, fs: FileSystem, artifacts: seq<Artifact>, n: nat, partial: Bytes)
    requires Succeeds(codec, fs, artifacts) && Recoverable(codec, fs, artifacts) && n <= |artifacts|
    requires ParentsNotRevisited(codec, fs, artifacts, Path(WithManifest(codec, artifacts), n))
    ensures Generate(codec, TornAfter(codec, fs, artifacts, n, partial), artifacts, |artifacts| + 1)
         == Generate(codec, fs, artifacts, |artifacts| + 1)
  {
    var torn, list := TornAfter(codec, fs, artifacts, n, partial), WithManifest(codec, artifacts);
    SuccessParts(codec, fs, artifacts);
    RetryRemovals(codec, fs, artifacts, n, partial);
    TornOutputsSafe(codec, fs, artifacts, n, partial);
    TornReplaces(codec, fs, artifacts, n, partial);
    GenerateDecomposed(codec, torn, artifacts);
  }

  lemma TornOutputsSafe(codec: Codec, fs: FileSystem, artifacts: seq<Artifact>, n: nat, partial: Bytes)
    requires Succeeds(codec, fs, artifacts) && Separate(artifacts) && n <= |artifacts|
    ensures ValidateOutputRoot(TornAfter(codec, fs, artifacts, n, partial), artifacts).None?
  {
    var part, list := ReplaceAll(Cleared(codec, fs, artifacts), artifacts[..n]).0, WithManifest(codec, artifacts);
    ResumeBase(codec, fs, artifacts, n);
    WithManifestPaths(codec, artifacts);
    SeparateWithManifest(codec, fs, artifacts);
    PartReplaceable(codec, fs, artifacts, n);
    ValidateIff(part, artifacts);
    forall j | 0 <= j < |artifacts| ensures SafeOutput(TornAfter(codec, fs, artifacts, n, partial), artifacts[j].path) {
      TornIsSafe(part, list, n, j, partial);
    }
    ValidateIff(TornAfter(codec, fs, artifacts, n, partial), artifacts);
  }

  lemma PartCompatible(codec: Codec, fs: FileSystem, artifacts: seq<Artifact>, n: nat)
    requires Succeeds(codec, fs, artifacts) && Separate(artifacts) && n <= |artifacts|
    ensures var part, list :=
        ReplaceAll(Cleared(codec, fs, artifacts), artifacts[..n]).0, WithManifest(codec, artifacts);
      && Compatible(part, list) && Separate(list) && AncestorFree(list)
      && ReplaceAll(part, list) == ReplaceAll(Cleared(codec, fs, artifacts), list)
  {
    SuccessParts(codec, fs, artifacts);
    WithManifestPaths(codec, artifacts);
    SeparateWithManifest(codec, fs, artifacts);
    TempLeavesPlainWithManifest(codec, fs, artifacts);
    ReplayConverges(Cleared(codec, fs, artifacts), WithManifest(codec, artifacts), n);
  }

  lemma TornReplaces(codec: Codec, fs: FileSystem, artifacts: seq<Artifact>, n: nat, partial: Bytes)
    requires Succeeds(codec, fs, artifacts) && Recoverable(codec, fs, artifacts) && n <= |artifacts|
    requires ParentsNotRevisited(codec, fs, artifacts, Path(WithManifest(codec, artifacts), n))
    ensures ReplaceAll(Cleared(codec, TornAfter(codec, fs, artifacts, n, partial), artifacts),
        WithManifest(codec, artifacts))
         == ReplaceAll(Cleared(codec, fs, artifacts), WithManifest(codec, artifacts))
  {
    var part, list := ReplaceAll(Cleared(codec, fs, artifacts), artifacts[..n]).0, WithManifest(codec, artifacts);
    var torn := TornAfter(codec, fs, artifacts, n, partial);
    var cleared := Cleared(codec, torn, artifacts);
    RetryRemovals(codec, fs, artifacts, n, partial);
    PartCompatible(codec, fs, artifacts, n);
    TornCompatible(part, list, n, partial, cleared);
    forall x | LastEffect(list, x).None? ensures At(cleared, x) == At(part, x) {
      NoEffects(list, x);
      assert Effect(list[n], x).None?;
      assert Replaceable(part, Path(list, n));
      TornAt(part, Path(list, n), partial, x);
      if Revisited(codec, fs, artifacts, x) {
        NothingObsoleteLeft(codec, fs, artifacts, n, x);
      }
    }
    ReplacesAlike(cleared, part, list);
  }

  // ----- The exact condition -----

  /** Recoverable, and no obsolete path to be met again is the manifest's own directory. */
  ghost predicate CrashProof(codec: Codec, fs: FileSystem, artifacts: seq<Artifact>) {
    Recoverable(codec, fs, artifacts) && ParentsNotRevisited(codec, fs, artifacts, SET_MANIFEST)
  }

  lemma CrashProofParents(codec: Codec, fs: FileSystem, artifacts: seq<Artifact>, n: nat)
    requires CrashProof(codec, fs, artifacts) && n <= |artifacts|
    ensures ParentsNotRevisited(codec, fs, artifacts, Path(WithManifest(codec, artifacts), n))
  {
    if n < |artifacts| {
      assert Path(WithManifest(codec, artifacts), n) == Path(artifacts, n);
    } else {
      assert Path(WithManifest(codec, artifacts), n) == SET_MANIFEST;
    }
  }

  lemma TornDirectory(codec: Codec, fs: FileSystem, artifacts: seq<Artifact>, n: nat, partial: Bytes, a: string)
    requires Succeeds(codec, fs, artifacts) && n <= |artifacts| &&
        a in Ancestors(Path(WithManifest(codec, artifacts), n))
    ensures At(TornAfter(codec, fs, artifacts, n, partial), a) == Some(Dir)
  {
    var path := Path(WithManifest(codec, artifacts), n);
    PartReplaceable(codec, fs, artifacts, n);
    TempDiffers(path);
    TornAt(ReplaceAll(Cleared(codec, fs, artifacts), artifacts[..n]).0, path, partial, a);
  }

  lemma TornBlockedByObsolete(codec: Codec, fs: FileSystem, artifacts: seq<Artifact>, n: nat, partial: Bytes,
        path: string)
    requires Succeeds(codec, fs, artifacts) && Separate(artifacts) && n <= |artifacts|
    requires Revisited(codec, fs, artifacts, path) && path in Ancestors(Path(WithManifest(codec, artifacts), n))
    ensures Generate(codec, TornAfter(codec, fs, artifacts, n, partial), artifacts, |artifacts| + 1).1.Some?
  {
    var torn, entries := TornAfter(codec, fs, artifacts, n, partial), Entries(codec, fs);
    TornDirectory(codec, fs, artifacts, n, partial, path);
    EntriesInTorn(codec, fs, artifacts, n, partial);
    EntriesAgain(codec, fs, artifacts, n);
    var i :| 0 <= i < |entries| && entries[i].path == path;
    RemoveEntriesEffect(torn, entries, artifacts, path);
    assert !Removable(torn, entries[i].path, artifacts);
    GenerateDecomposed(codec, torn, artifacts);
  }

  ghost predicate TornHeals(codec: Codec, fs: FileSystem, artifacts: seq<Artifact>, n: nat, partial: Bytes)
    requires n <= |artifacts|
  {
    Generate(codec, TornAfter(codec, fs, artifacts, n, partial), artifacts, |artifacts| + 1)
    == Generate(codec, fs, artifacts, |artifacts| + 1)
  }

  lemma NotCrashProof(codec: Codec, fs: FileSystem, artifacts: seq<Artifact>, partial: Bytes)
    requires Succeeds(codec, fs, artifacts) && !CrashProof(codec, fs, artifacts)
    ensures exists n: nat :: n <= |artifacts| && !TornHeals(codec, fs, artifacts, n, partial)
  {
    var list := WithManifest(codec, artifacts);
    WithManifestPaths(codec, artifacts);
    if !Separate(artifacts) {
      var i: nat, j: nat :|
        i < |artifacts| && j < |artifacts| && TempPath(Path(artifacts, i)) in Ancestors(Path(artifacts, j));
      TornDirectory(codec, fs, artifacts, j, partial, TempPath(Path(artifacts, i)));
      DirectoryBlocks(codec, TornAfter(codec, fs, artifacts, j, partial), artifacts, i);
      assert !TornHeals(codec, fs, artifacts, j, partial);
    } else if path, j: nat :|
      j < |artifacts| && Revisited(codec, fs, artifacts, path) && path in Ancestors(Path(artifacts, j)) {
      TornBlockedByObsolete(codec, fs, artifacts, j, partial, path);
      assert !TornHeals(codec, fs, artifacts, j, partial);
    } else {
      var path :| path in Ancestors(SET_MANIFEST) && Revisited(codec, fs, artifacts, path);
      TornBlockedByObsolete(codec, fs, artifacts, |artifacts|, partial, path);
      assert !TornHeals(codec, fs, artifacts, |artifacts|, partial);
    }
  }

  /** Every crash inside a replacement is healed by running again exactly under `CrashProof`. */
  lemma TornReplacementsHealIff(codec: Codec, fs: FileSystem, artifacts: seq<Artifact>)
    requires Succeeds(codec, fs, artifacts)
    ensures CrashProof(codec, fs, artifacts) <==>
            forall n: nat, partial :: n <= |artifacts| ==> TornHeals(codec, fs, artifacts, n, partial)
  {
    if CrashProof(codec, fs, artifacts) {
      forall n: nat, partial | n <= |artifacts| ensures TornHeals(codec, fs, artifacts, n, partial) {
        CrashProofParents(codec, fs, artifacts, n);
        TornReplacementHeals(codec, fs, artifacts, n, partial);
      }
    } else {
      NotCrashProof(codec, fs, artifacts, []);
    }
  }

  // ----- Retries that are themselves cut short -----

  /** One run cut short: stopped before its n-th replacement, or crashed inside it. */
  datatype Attempt = Stopped(n: nat) | Crashed(n: nat, partial: Bytes)

  predicate Cut(artifacts: seq<Artifact>, attempts: seq<Attempt>) {
    forall k :: 0 <= k < |attempts| ==> attempts[k].n <= |artifacts|
  }

  function AfterAttempt(codec: Codec, fs: FileSystem, artifacts: seq<Artifact>, attempt: Attempt): FileSystem
    requires attempt.n <= |artifacts|
  {
    match attempt
    case Stopped(n) => Generate(codec, fs, artifacts, n).0
    case Crashed(n, partial) => TornAfter(codec, fs, artifacts, n, partial)
  }

  function AfterAttempts(codec: Codec, fs: FileSystem, artifacts: seq<Artifact>, attempts: seq<Attempt>): FileSystem
    requires Cut(artifacts, attempts)
  {
    if attempts == [] then fs
    else
      var n := |attempts| - 1;
      AfterAttempt(codec, AfterAttempts(codec, fs, artifacts, attempts[..n]), artifacts, attempts[n])
  }

  /** An attempt cut short leaves nothing new to be met again. */
  lemma RevisitedBefore(codec: Codec, fs: FileSystem, artifacts: seq<Artifact>, attempt: Attempt, path: string)
    requires Succeeds(codec, fs, artifacts) && Separate(artifacts) && attempt.n <= |artifacts|
    requires Revisited(codec, AfterAttempt(codec, fs, artifacts, attempt), artifacts, path)
    ensures Revisited(codec, fs, artifacts, path)
  {
    EntriesAgain(codec, fs, artifacts, attempt.n);
    match attempt
    case Stopped(n) => InterruptedState(codec, fs, artifacts, n);
    case Crashed(n, partial) => EntriesInTorn(codec, fs, artifacts, n, partial);
  }

  lemma AttemptHeals(codec: Codec, fs: FileSystem, artifacts: seq<Artifact>, attempt: Attempt)
    requires Succeeds(codec, fs, artifacts) && CrashProof(codec, fs, artifacts) && attempt.n <= |artifacts|
    ensures Generate(codec, AfterAttempt(codec, fs, artifacts, attempt), artifacts, |artifacts| + 1)
         == Generate(codec, fs, artifacts, |artifacts| + 1)
  {
    match attempt
    case Stopped(n) => InterruptionsRecoverable(codec, fs, artifacts);
    case Crashed(n, partial) =>
      TornReplacementsHealIff(codec, fs, artifacts);
      assert TornHeals(codec, fs, artifacts, n, partial);
  }

  lemma AttemptKeepsCrashProof(codec: Codec, fs: FileSystem, artifacts: seq<Artifact>, attempt: Attempt)
    requires Succeeds(codec, fs, artifacts) && CrashProof(codec, fs, artifacts) && attempt.n <= |artifacts|
    ensures CrashProof(codec, AfterAttempt(codec, fs, artifacts, attempt), artifacts)
  {
    var after := AfterAttempt(codec, fs, artifacts, attempt);
    forall path | Revisited(codec, after, artifacts, path) ensures Revisited(codec, fs, artifacts, path) {
      RevisitedBefore(codec, fs, artifacts, attempt, path);
    }
  }

  lemma {:induction false} AttemptsHeal(codec: Codec, fs: FileSystem, artifacts: seq<Artifact>, attempts: seq<Attempt>)
    requires Succeeds(codec, fs, artifacts) && CrashProof(codec, fs, artifacts) && Cut(artifacts, attempts)
    ensures var after := AfterAttempts(codec, fs, artifacts, attempts);
      && CrashProof(codec, after, artifacts)
      && Generate(codec, after, artifacts, |artifacts| + 1) == Generate(codec, fs, artifacts, |artifacts| + 1)
  {
    if attempts != [] {
      var n := |attempts| - 1;
      var before := AfterAttempts(codec, fs, artifacts, attempts[..n]);
      AttemptsHeal(codec, fs, artifacts, attempts[..n]);
      AttemptHeals(codec, before, artifacts, attempts[n]);
      AttemptKeepsCrashProof(codec, before, artifacts, attempts[n]);
    }
  }

  /** However many runs are cut short, each stopped or crashed anywhere in its replacements, one
      run to the end reaches the tree of one uninterrupted run, exactly under `CrashProof`. */
  lemma AnyAttemptsHealIff(codec: Codec, fs: FileSystem, artifacts: seq<Artifact>)
    requires Succeeds(codec, fs, artifacts)
    ensures CrashProof(codec, fs, artifacts) <==>
            forall attempts :: Cut(artifacts, attempts) ==>
              (Generate(codec, AfterAttempts(codec, fs, artifacts, attempts), artifacts, |artifacts| + 1)
               == Generate(codec, fs, artifacts, |artifacts| + 1))
  {
    if CrashProof(codec, fs, artifacts) {
      forall attempts | Cut(artifacts, attempts)
        ensures Generate(codec, AfterAttempts(codec, fs, artifacts, attempts), artifacts, |artifacts| + 1)
             == Generate(codec, fs, artifacts, |artifacts| + 1)
      {
        AttemptsHeal(codec, fs, artifacts, attempts);
      }
    } else {
      NotCrashProof(codec, fs, artifacts, []);
      var n: nat :| n <= |artifacts| && !TornHeals(codec, fs, artifacts, n, []);
      var attempts := [Crashed(n, [])];
      assert Cut(artifacts, attempts) && attempts[..0] == [];
      assert AfterAttempts(codec, fs, artifacts, attempts) == TornAfter(codec, fs, artifacts, n, []);
    }
  }
}
