/** Trees and sets for which generation's promises fail. */
module ProjectionWitness {
  import opened Wrappers
  import opened Framing
  import opened Numerals
  import opened Ordering
  import opened Projection
  import opened ProjectionSafety
  import opened ProjectionRecovery
  import opened ProjectionCrash

  // ----- Generations that succeed -----

  /** No path of the list stands in the way of a later one. */
  ghost predicate Unblocked(list: seq<Artifact>) {
    forall i: nat, j: nat :: i < j < |list| ==> Apart(Path(list, i), Path(list, j))
  }

  predicate Apart(first: string, later: string) {
    first !in Ancestors(later) && TempPath(later) !in Ancestors(first) && later !in Ancestors(first)
  }

  lemma UnblockedNext(fs: FileSystem, list: seq<Artifact>, n: nat)
    requires Compatible(fs, list) && Unblocked(list) && n < |list| && ReplaceAll(fs, list[..n]).1.None?
    ensures Replaceable(ReplaceAll(fs, list[..n]).0, Path(list, n))
  {
    var part, path := ReplaceAll(fs, list[..n]).0, Path(list, n);
    assert list[..n][..n] == list[..n] && Replaceable(fs, path);
    forall a | a in Ancestors(path) && a in part ensures part[a].Dir? {
      var m := FoundAt(fs, list[..n], n, a);
      assert m < n ==> list[..n][m] == list[m] && Path(list, m) != a;
    }
    var t := FoundAt(fs, list[..n], n, TempPath(path));
    assert t < n ==> list[..n][t] == list[t] && TempPath(path) !in Ancestors(Path(list, t));
    var p := FoundAt(fs, list[..n], n, path);
    assert p < n ==> list[..n][p] == list[p] && path !in Ancestors(Path(list, p));
  }

  lemma {:induction false} UnblockedSucceeds(fs: FileSystem, list: seq<Artifact>, n: nat)
    requires Compatible(fs, list) && Unblocked(list) && n <= |list|
    ensures ReplaceAll(fs, list[..n]).1.None?
  {
    if n > 0 {
      UnblockedSucceeds(fs, list, n - 1);
      UnblockedNext(fs, list, n - 1);
      assert list[..n][..n - 1] == list[..n - 1] && list[..n][n - 1] == list[n - 1];
      ReplaceEffect(ReplaceAll(fs, list[..n - 1]).0, list[n - 1], "");
    }
  }

  /** Where no entry of a previous manifest is removed, an unblocked set generates. */
  lemma UnblockedGenerates(codec: Codec, fs: FileSystem, artifacts: seq<Artifact>)
    requires ValidSet(artifacts) && RemoveObsolete(codec, fs, artifacts) == (fs, None)
    requires forall i :: 0 <= i < |artifacts| ==> SafeOutput(fs, artifacts[i].path)
    requires Compatible(fs, WithManifest(codec, artifacts)) && Unblocked(WithManifest(codec, artifacts))
    ensures Succeeds(codec, fs, artifacts)
  {
    var list := WithManifest(codec, artifacts);
    UnblockedSucceeds(fs, list, |list|);
    assert list[..|list|] == list;
    ValidateIff(fs, artifacts);
    GenerateDecomposed(codec, fs, artifacts);
  }

  /** On an empty tree, a set at the root generates without error. */
  lemma RootSetSucceeds(codec: Codec, artifacts: seq<Artifact>)
    requires ValidSet(artifacts)
    requires forall i: nat :: i < |artifacts| ==>
               Ancestors(Path(artifacts, i)) == {} && Path(artifacts, i) != ".repository-engineering"
    ensures Succeeds(codec, map[], artifacts)
  {
    RootSetUnblocked(codec, artifacts);
    UnblockedGenerates(codec, map[], artifacts);
  }

  lemma RootSetUnblocked(codec: Codec, artifacts: seq<Artifact>)
    requires ValidSet(artifacts)
    requires forall i: nat :: i < |artifacts| ==>
               Ancestors(Path(artifacts, i)) == {} && Path(artifacts, i) != ".repository-engineering"
    ensures Unblocked(WithManifest(codec, artifacts))
  {
    var list := WithManifest(codec, artifacts);
    WithManifestPaths(codec, artifacts);
    ManifestDirectory();
    forall i: nat | i < |artifacts| ensures Path(list, i) == Path(artifacts, i) {
    }
  }

  /** No directory above the path is long enough to be the manifest or its temporary. */
  predicate ShortlyNested(path: string) {
    path != ".repository-engineering" && forall a :: a in Ancestors(path) ==> |a| < |SET_MANIFEST|
  }

  /** A set of two, neither in the other's way. */
  lemma PairGenerates(codec: Codec, fs: FileSystem, x: Artifact, y: Artifact)
    requires ValidSet([x, y]) && RemoveObsolete(codec, fs, [x, y]) == (fs, None)
    requires SafeOutput(fs, x.path) && SafeOutput(fs, y.path)
    requires Replaceable(fs, x.path) && Replaceable(fs, y.path) && Replaceable(fs, SET_MANIFEST)
    requires x.path !in Ancestors(y.path) && y.path !in Ancestors(x.path) && TempPath(y.path) !in Ancestors(x.path)
    requires ShortlyNested(x.path) && ShortlyNested(y.path)
    ensures Succeeds(codec, fs, [x, y])
  {
    PairUnblocked(codec, x, y);
    var list := WithManifest(codec, [x, y]);
    assert Path(list, 0) == x.path && Path(list, 1) == y.path && Path(list, 2) == SET_MANIFEST;
    UnblockedGenerates(codec, fs, [x, y]);
  }

  lemma ManifestApart(path: string)
    requires ShortlyNested(path)
    ensures Apart(path, SET_MANIFEST)
  {
    ManifestDirectory();
    TempDiffers(SET_MANIFEST);
  }

  lemma PairUnblocked(codec: Codec, x: Artifact, y: Artifact)
    requires x.path !in Ancestors(y.path) && y.path !in Ancestors(x.path) && TempPath(y.path) !in Ancestors(x.path)
    requires ShortlyNested(x.path) && ShortlyNested(y.path)
    ensures Unblocked(WithManifest(codec, [x, y]))
  {
    var list := WithManifest(codec, [x, y]);
    ManifestApart(x.path);
    ManifestApart(y.path);
    assert |list| == 3;
    assert Path(list, 0) == x.path && Path(list, 1) == y.path && Path(list, 2) == SET_MANIFEST;
  }

  lemma TempOfPlain(name: string)
    requires forall i :: 0 <= i < |name| ==> name[i] != '/'
    ensures TempPath(name) == "." + name + TEMP_SUFFIX
  {
    assert DirPrefix(name) == "";
    assert name[0..] == name && "" + "." == ".";
  }

  lemma HeadLe(a: string, b: string)
    requires a != "" && b != "" && a[0] < b[0]
    ensures StringLe(a, b)
  {
  }

  lemma TempNotListed(path: string)
    ensures TempPath(path) != SET_MANIFEST && TempPath(path) != ".repository-engineering"
  {
    TemporaryNames(path);
    ManifestDirectory();
  }

  // ----- An artifact named as another's temporary -----

  /** A path and its own temporary, as two empty artifacts. */
  function WithOwnTemporary(path: string): seq<Artifact> {
    [Artifact(TempPath(path), []), Artifact(path, [])]
  }

  lemma EmptyTotal(a: Artifact)
    requires a.bytes == []
    ensures TotalBytes([a]) == 0
  {
    assert [a][..0] == [];
  }

  lemma EmptyPairTotal(a: Artifact, b: Artifact)
    requires a.bytes == [] && b.bytes == []
    ensures TotalBytes([a, b]) == 0
  {
    EmptyTotal(a);
    EmptyTotal(b);
    TotalOfConcat([a], [b]);
    assert [a, b] == [a] + [b];
  }

  lemma PairAcceptable(s: seq<Artifact>)
    requires |s| == 2 && s[0].bytes == [] && s[1].bytes == [] && s[0].path != s[1].path
    requires ValidRelativePath(s[0].path) && ValidRelativePath(s[1].path)
    requires s[0].path != SET_MANIFEST && s[1].path != SET_MANIFEST
    ensures Acceptable(s)
  {
    EmptyPairTotal(s[0], s[1]);
    assert s == [s[0], s[1]];
  }

  lemma PairValid(temp: string, path: string)
    requires ValidRelativePath(temp) && ValidRelativePath(path) && temp != path
    requires temp != SET_MANIFEST && path != SET_MANIFEST && StringLe(temp, path)
    ensures ValidSet([Artifact(temp, []), Artifact(path, [])])
  {
    var s := [Artifact(temp, []), Artifact(path, [])];
    PairAcceptable(s);
    assert SortedBy(ByPath, s);
  }

  lemma TemporaryOfA()
    ensures TempPath("a") == ".a" + TEMP_SUFFIX
    ensures ValidRelativePath("a") && Ancestors("a") == {}
    ensures ValidRelativePath(".a" + TEMP_SUFFIX) && Ancestors(".a" + TEMP_SUFFIX) == {}
  {
    PlainPath("a");
    PlainPath(".a" + TEMP_SUFFIX);
  }

  /** A valid set whose generation reports success and is not up to date: one artifact bears
      the name of the other's temporary and is deleted by it. */
  lemma SelfClobberingSet(codec: Codec, path: string)
    requires ValidSet(WithOwnTemporary(path)) && Ancestors(path) == {} && Ancestors(TempPath(path)) == {}
    requires path != ".repository-engineering"
    ensures var artifacts := WithOwnTemporary(path);
      Succeeds(codec, map[], artifacts) && !UpToDate(codec, Generate(codec, map[], artifacts, 3).0, artifacts)
  {
    var artifacts := WithOwnTemporary(path);
    TemporaryNames(path);
    ManifestDirectory();
    assert SET_MANIFEST[..23] in Ancestors(SET_MANIFEST);
    assert TempPath(path) != ".repository-engineering";
    RootSetSucceeds(codec, artifacts);
    WithManifestPaths(codec, artifacts);
    var list := WithManifest(codec, artifacts);
    assert TempPath(Path(list, 1)) == Path(list, 0);
    assert !NoLaterTemporary(list);
    GeneratedIsUpToDate(codec, map[], artifacts);
  }

  lemma SelfClobberingExists(codec: Codec)
    ensures Succeeds(codec, map[], WithOwnTemporary("a"))
    ensures !UpToDate(codec, Generate(codec, map[], WithOwnTemporary("a"), 3).0, WithOwnTemporary("a"))
  {
    TemporaryOfA();
    TemporaryNames("a");
    assert |SET_MANIFEST| != 1 && |".repository-engineering"| != 1;
    assert StringLe(".a" + TEMP_SUFFIX, "a");
    PairValid(TempPath("a"), "a");
    SelfClobberingSet(codec, "a");
  }

  lemma PlainPath(path: string)
    requires 0 < |path| < 100
    requires forall i :: 0 <= i < |path| ==> (path[i] == '.' || path[i] == '-' || 'a' <= path[i] <= 'z')
    requires path[|path| - 1] != '.'
    ensures ValidRelativePath(path) && Ancestors(path) == {}
  {
    AsciiLength(path);
  }

  lemma {:induction false} AsciiLength(path: string)
    requires forall i :: 0 <= i < |path| ==> path[i] as int < 0x80
    ensures Utf8Len(path) == |path|
  {
    if path != "" {
      AsciiLength(path[1..]);
    }
  }

  // ----- A temporary above an artifact -----

  predicate PlainName(name: string) {
    && 0 < |name| < 100 && name[|name| - 1] != '.'
    && forall i :: 0 <= i < |name| ==> (name[i] == '.' || name[i] == '-' || 'a' <= name[i] <= 'z')
  }

  lemma TwoLevelPath(dir: string, name: string)
    requires PlainName(dir) && PlainName(name)
    ensures var path := dir + "/" + name; ValidRelativePath(path) && Ancestors(path) == {dir}
  {
    var path := dir + "/" + name;
    AsciiLength(path);
    assert path[|dir|] == '/' && path[..|dir|] == dir;
    assert forall i :: 0 <= i < |path| && path[i] == '/' ==> i == |dir|;
    forall i: nat | i <= |path| && SegmentEnd(path, i)
      ensures i > 0 && path[i - 1] != '/' && path[i - 1] != '.' && path[i - 1] != ' '
    {
      assert i == |dir| || i == |path|;
    }
  }

  const TEMP_OF_DASH: string := ".-a" + TEMP_SUFFIX

  /** An artifact below what another's temporary is named. */
  function BelowTemporary(): seq<Artifact> {
    [Artifact("-a", []), Artifact(TEMP_OF_DASH + "/b", [])]
  }

  predicate PlainChars(s: string) {
    forall i :: 0 <= i < |s| ==> (s[i] == '.' || s[i] == '-' || 'a' <= s[i] <= 'z')
  }

  lemma SuffixPlain()
    ensures PlainChars(TEMP_SUFFIX) && |TEMP_SUFFIX| == 27 && TEMP_SUFFIX[26] == 'p'
  {
  }

  lemma DashNames()
    ensures PlainName("-a") && PlainName("b") && PlainName(TEMP_OF_DASH) && |TEMP_OF_DASH| == 30
  {
    SuffixPlain();
    var temp := TEMP_OF_DASH;
    assert forall i :: 3 <= i < |temp| ==> temp[i] == TEMP_SUFFIX[i - 3];
  }

  lemma BelowTemporaryShape()
    ensures TempPath("-a") == TEMP_OF_DASH && ValidSet(BelowTemporary())
    ensures Ancestors("-a") == {} && Ancestors(TEMP_OF_DASH + "/b") == {TEMP_OF_DASH} && |TEMP_OF_DASH| == 30
  {
    DashNames();
    TempOfPlain("-a");
    assert "." + "-a" == ".-a";
    PlainPath("-a");
    TwoLevelPath(TEMP_OF_DASH, "b");
    assert TEMP_OF_DASH + "/" + "b" == TEMP_OF_DASH + "/b";
    HeadLe("-a", TEMP_OF_DASH + "/b");
    PairValid("-a", TEMP_OF_DASH + "/b");
  }

  /** A set that generates on an empty tree, and whose interruption cannot be finished. */
  lemma UnrecoverableExists(codec: Codec)
    ensures var artifacts := BelowTemporary();
      && Succeeds(codec, map[], artifacts) && !Recoverable(codec, map[], artifacts)
      && exists n: nat :: n <= |artifacts| &&
           Generate(codec, Generate(codec, map[], artifacts, n).0, artifacts, |artifacts| + 1)
           != Generate(codec, map[], artifacts, |artifacts| + 1)
  {
    var artifacts := BelowTemporary();
    BelowTemporarySucceeds(codec);
    BelowTemporaryShape();
    assert TempPath(Path(artifacts, 0)) in Ancestors(Path(artifacts, 1));
    InterruptionsRecoverable(codec, map[], artifacts);
  }

  lemma BelowTemporarySucceeds(codec: Codec)
    ensures Succeeds(codec, map[], BelowTemporary())
  {
    var below := TEMP_OF_DASH + "/b";
    BelowTemporaryShape();
    TempDiffers(below);
    assert |below| == 32 && |"-a"| == 2 && |SET_MANIFEST| == 42 && |".repository-engineering"| == 23;
    PairGenerates(codec, map[], Artifact("-a", []), Artifact(below, []));
  }

  // ----- An obsolete path above an artifact -----

  function OldManifest(): Manifest {
    Manifest("v0", [ManifestEntry("a", "", 0)])
  }

  /** A tree whose manifest lists an absent file `a`. */
  function TreeListingA(codec: Codec): FileSystem {
    map[".repository-engineering" := Dir, SET_MANIFEST := File(codec.encode(OldManifest()))]
  }

  function BelowA(): seq<Artifact> {
    [Artifact("a/b", []), Artifact("c", [])]
  }

  lemma BelowAShape()
    ensures ValidSet(BelowA()) && ValidRelativePath("a") && Parent("a") == "" && Parent("c") == ""
    ensures Ancestors("a/b") == {"a"} && Ancestors("c") == {}
  {
    TwoLevelPath("a", "b");
    assert "a" + "/" + "b" == "a/b";
    PlainPath("a");
    PlainPath("c");
    assert "a"[..0] == "" && "c"[..0] == "";
    assert StringLe("a/b", "c");
    PairValid("a/b", "c");
  }

  lemma NothingRemovedBelowA(codec: Codec)
    requires Lawful(codec) && |codec.encode(OldManifest())| <= MAX_ARTIFACT_BYTES
    ensures PreviousEntries(codec, TreeListingA(codec)) == Ok([ManifestEntry("a", "", 0)])
    ensures RemoveObsolete(codec, TreeListingA(codec), BelowA()) == (TreeListingA(codec), None)
  {
    var entries := [ManifestEntry("a", "", 0)];
    BelowAShape();
    assert BelowA()[1].path == "c";
    assert ManagedParent(BelowA(), "a");
    assert "a" !in TreeListingA(codec) by {
      assert |"a"| == 1 && |SET_MANIFEST| > 1;
    }
    NothingToRemove(TreeListingA(codec), entries, BelowA());
  }

  /** A tree and a set that generates on it, the retry being refused because an obsolete path
      has become a directory. */
  lemma RevisitedExists(codec: Codec)
    requires Lawful(codec) && |codec.encode(OldManifest())| <= MAX_ARTIFACT_BYTES
    ensures var fs, artifacts := TreeListingA(codec), BelowA();
      && Succeeds(codec, fs, artifacts) && Separate(artifacts) && Revisited(codec, fs, artifacts, "a")
      && !Recoverable(codec, fs, artifacts)
      && exists n: nat :: n <= |artifacts| &&
           Generate(codec, Generate(codec, fs, artifacts, n).0, artifacts, |artifacts| + 1)
           != Generate(codec, fs, artifacts, |artifacts| + 1)
  {
    var fs, artifacts := TreeListingA(codec), BelowA();
    BelowASucceeds(codec);
    BelowAShape();
    NothingRemovedBelowA(codec);
    TempDiffers("a/b");
    TempDiffers("c");
    assert Entries(codec, fs)[0].path == "a" && SET_MANIFEST != "a";
    assert Revisited(codec, fs, artifacts, "a");
    assert "a" in Ancestors(Path(artifacts, 0));
    InterruptionsRecoverable(codec, fs, artifacts);
  }

  lemma BelowASucceeds(codec: Codec)
    requires Lawful(codec) && |codec.encode(OldManifest())| <= MAX_ARTIFACT_BYTES
    ensures Succeeds(codec, TreeListingA(codec), BelowA())
  {
    BelowAShape();
    NothingRemovedBelowA(codec);
    TempOfPlain("c");
    assert |"a/b"| == 3 && |SET_MANIFEST| == 42 && |".repository-engineering"| == 23 && |"c"| == 1;
    ReplaceableInTreeA(codec, "a/b");
    ReplaceableInTreeA(codec, "c");
    ReplaceableInTreeA(codec, SET_MANIFEST);
    PairGenerates(codec, TreeListingA(codec), Artifact("a/b", []), Artifact("c", []));
  }

  lemma ReplaceableInTreeA(codec: Codec, path: string)
    requires path in {"a/b", "c", SET_MANIFEST}
    ensures Replaceable(TreeListingA(codec), path)
    ensures path != SET_MANIFEST ==> SafeOutput(TreeListingA(codec), path)
  {
    BelowAShape();
    ManifestDirectory();
    TempNotListed(path);
    assert |"a/b"| == 3 && |"a"| == 1 && |"c"| == 1 && |SET_MANIFEST| == 42 && |".repository-engineering"| == 23;
  }

  // ----- A manifest too large to be read again -----

  const MANY: nat := 10_000

  /** Four directory names, each ended by a slash. */
  function LongDirectory(): string {
    seq(900, i => if i % 225 == 224 then '/' else 'd')
  }

  function LongPath(i: nat): string {
    LongDirectory() + DecimalText(i)
  }

  function LongArtifact(i: nat): Artifact {
    Artifact(LongPath(i), [])
  }

  function LongArtifacts(n: nat): seq<Artifact> {
    seq(n, i requires 0 <= i < n => LongArtifact(i))
  }

  lemma {:induction false} DecimalLength(n: nat, width: nat, bound: nat)
    requires n < bound && 0 < width &&
        bound == if width == 1 then 10 else if width == 2 then 100 else if width == 3 then 1000 else 10_000
    requires width <= 4
    ensures |DecimalText(n)| <= width
    decreases width
  {
    if n >= 10 {
      DecimalLength(n / 10, width - 1, bound / 10);
    }
  }

  lemma LongPathShape(i: nat)
    requires i < MANY
    ensures 900 < |LongPath(i)| <= 904 && ValidRelativePath(LongPath(i)) && LongPath(i)[0] == 'd'
    ensures forall a :: a in Ancestors(LongPath(i)) ==> 0 < |a| < 900 && a[0] == 'd'
  {
    var path, name := LongPath(i), DecimalText(i);
    DecimalRoundTrip(i);
    DecimalLength(i, 4, MANY);
    assert forall k :: 0 <= k < 900 ==> path[k] == LongDirectory()[k];
    assert forall k :: 900 <= k < |path| ==> path[k] == name[k - 900] && Digit(name[k - 900]);
    AsciiLength(path);
    forall k: nat | k <= |path| && SegmentEnd(path, k)
      ensures k > 0 && path[k - 1] != '/' && path[k - 1] != '.' && path[k - 1] != ' '
    {
      assert k == |path| || k % 225 == 224;
    }
  }

  lemma {:induction false} NoBytes(artifacts: seq<Artifact>)
    requires forall i :: 0 <= i < |artifacts| ==> artifacts[i].bytes == []
    ensures TotalBytes(artifacts) == 0
  {
    if artifacts != [] {
      NoBytes(artifacts[..|artifacts| - 1]);
    }
  }

  lemma LongPathsDistinct(i: nat, j: nat)
    requires LongPath(i) == LongPath(j)
    ensures i == j
  {
    assert LongPath(i)[900..] == DecimalText(i) && LongPath(j)[900..] == DecimalText(j);
    DecimalRoundTrip(i);
    DecimalRoundTrip(j);
  }

  lemma LongArtifactsAcceptable(n: nat)
    requires n <= MANY
    ensures Acceptable(LongArtifacts(n))
  {
    var artifacts := LongArtifacts(n);
    NoBytes(artifacts);
    forall i | 0 <= i < n
      ensures ValidRelativePath(artifacts[i].path) && artifacts[i].path != SET_MANIFEST
    {
      LongPathShape(i);
    }
    forall i, j | 0 <= i < j < n ensures artifacts[i].path != artifacts[j].path {
      if artifacts[i].path == artifacts[j].path {
        LongPathsDistinct(i, j);
      }
    }
  }

  function LongSet(n: nat): seq<Artifact> {
    SortBy(ByPath, LongArtifacts(n))
  }

  lemma LongSetShape(n: nat)
    requires n <= MANY
    ensures ValidSet(LongSet(n)) && |LongSet(n)| == n
    ensures forall k :: 0 <= k < n ==> exists i: nat :: i < n && LongSet(n)[k] == LongArtifact(i)
  {
    LongArtifactsAcceptable(n);
    SortKeepsAcceptable(LongArtifacts(n));
    SameElements(LongSet(n), LongArtifacts(n));
    forall k | 0 <= k < n ensures exists i: nat :: i < n && LongSet(n)[k] == LongArtifact(i) {
      assert LongSet(n)[k] in LongSet(n);
      var i :| 0 <= i < n && LongArtifacts(n)[i] == LongSet(n)[k];
    }
  }

  lemma LongPathsApart(i: nat, j: nat)
    requires i < MANY && j < MANY
    ensures LongPath(i) !in Ancestors(LongPath(j)) && TempPath(LongPath(i)) !in Ancestors(LongPath(j))
  {
    LongPathShape(i);
    LongPathShape(j);
    TempDiffers(LongPath(i));
  }

  lemma LongPathOfManifest(i: nat)
    requires i < MANY
    ensures LongPath(i) !in Ancestors(SET_MANIFEST)
    ensures SET_MANIFEST !in Ancestors(LongPath(i)) && TempPath(SET_MANIFEST) !in Ancestors(LongPath(i))
  {
    LongPathShape(i);
    ManifestTemporary();
    ManifestDirectory();
    assert SET_MANIFEST[0] == '.' && ".repository-engineering"[0] == '.';
  }

  lemma LongSetUnblocked(codec: Codec, n: nat)
    requires n <= MANY
    ensures Unblocked(WithManifest(codec, LongSet(n)))
  {
    var list := WithManifest(codec, LongSet(n));
    LongSetShape(n);
    forall i: nat, j: nat | i < j < |list|
      ensures Path(list, i) !in Ancestors(Path(list, j)) && TempPath(Path(list, j)) !in Ancestors(Path(list, i))
      ensures Path(list, j) !in Ancestors(Path(list, i))
    {
      var x: nat :| x < n && LongSet(n)[i] == LongArtifact(x);
      if j < n {
        var y: nat :| y < n && LongSet(n)[j] == LongArtifact(y);
        LongPathsApart(x, y);
        LongPathsApart(y, x);
      } else {
        LongPathOfManifest(x);
      }
    }
  }

  lemma LongSetSucceeds(codec: Codec, n: nat)
    requires n <= MANY
    ensures Succeeds(codec, map[], LongSet(n))
  {
    LongSetShape(n);
    LongSetUnblocked(codec, n);
    UnblockedGenerates(codec, map[], LongSet(n));
  }

  lemma ManifestTemporary()
    ensures TempPath(SET_MANIFEST)[0] == '.'
  {
    assert DirPrefix(SET_MANIFEST) != "" ==> DirPrefix(SET_MANIFEST)[0] == SET_MANIFEST[0];
  }

  // The encoding is at least as long as the paths it lists.

  function PathChars(entries: seq<ManifestEntry>): nat {
    if entries == [] then 0 else PathChars(entries[..|entries| - 1]) + |entries[|entries| - 1].path|
  }

  ghost predicate SpellsPaths(codec: Codec) {
    forall m: Manifest :: |codec.encode(m)| >= PathChars(m.entries)
  }

  lemma {:induction false} ManyPathChars(entries: seq<ManifestEntry>)
    requires forall i :: 0 <= i < |entries| ==> |entries[i].path| > 900
    ensures PathChars(entries) >= 901 * |entries|
  {
    if entries != [] {
      ManyPathChars(entries[..|entries| - 1]);
    }
  }

  lemma LongManifest(codec: Codec, n: nat)
    requires n <= MANY && SpellsPaths(codec)
    ensures |ManifestBytes(codec, LongSet(n))| >= 901 * n
  {
    var entries := ManifestOf(codec, LongSet(n)).entries;
    LongSetShape(n);
    forall k | 0 <= k < |entries| ensures |entries[k].path| > 900 {
      var i: nat :| i < n && LongSet(n)[k] == LongArtifact(i);
      LongPathShape(i);
    }
    ManyPathChars(entries);
  }

  /** Ten thousand empty artifacts with long paths: generated without error, their manifest is too
      large for the next generation, which fails. */
  lemma OversizedManifestExists(codec: Codec)
    requires SpellsPaths(codec)
    ensures var artifacts := LongSet(MANY);
      var done := Generate(codec, map[], artifacts, |artifacts| + 1).0;
      && Succeeds(codec, map[], artifacts) && |ManifestBytes(codec, artifacts)| > MAX_ARTIFACT_BYTES
      && Generate(codec, done, artifacts, |artifacts| + 1).1.Some?
  {
    LongSetSucceeds(codec, MANY);
    LongManifest(codec, MANY);
    ManifestWritten(codec, map[], LongSet(MANY));
  }

  // ----- An unlisted file named as a temporary -----

  /** A file no manifest lists is lost because it is named as an artifact's temporary. */
  lemma TemporaryFileLost(codec: Codec)
    ensures var lost, artifacts := TempPath("a"), [Artifact("a", [])];
      var fs := map[lost := File([])];
      && Succeeds(codec, fs, artifacts) && !HasPath(artifacts, lost) && lost != SET_MANIFEST
      && !Dropped(Entries(codec, fs), artifacts, lost)
      && At(Generate(codec, fs, artifacts, 2).0, lost) != At(fs, lost)
  {
    var lost, artifacts := TempPath("a"), [Artifact("a", [])];
    var fs := map[lost := File([])];
    LoneArtifactSucceeds(codec, lost);
    TemporaryNames("a");
    TempDiffers("a");
    assert Path(WithManifest(codec, artifacts), 0) == "a";
    OtherFilesSurviveIff(codec, fs, artifacts, lost);
  }

  lemma LoneUnblocked(codec: Codec)
    ensures Unblocked(WithManifest(codec, [Artifact("a", [])]))
  {
    var list := WithManifest(codec, [Artifact("a", [])]);
    TemporaryOfA();
    ManifestDirectory();
    assert |"a"| == 1 && |".repository-engineering"| == 23;
    assert Path(list, 0) == "a" && Path(list, 1) == SET_MANIFEST;
  }

  lemma ReplaceableBeside(file: string, path: string)
    requires file !in Ancestors(path) && file != path
    ensures Replaceable(map[file := File([])], path) && SafeOutput(map[file := File([])], path)
  {
  }

  lemma LoneCompatible(codec: Codec, temp: string)
    requires temp == TempPath("a")
    ensures Compatible(map[temp := File([])], WithManifest(codec, [Artifact("a", [])]))
    ensures SafeOutput(map[temp := File([])], "a")
  {
    var list := WithManifest(codec, [Artifact("a", [])]);
    TempDiffers("a");
    TemporaryNames("a");
    ReplaceableBeside(temp, "a");
    ReplaceableBeside(temp, SET_MANIFEST);
    assert Path(list, 0) == "a" && Path(list, 1) == SET_MANIFEST;
  }

  lemma LoneValid()
    ensures ValidSet([Artifact("a", [])])
  {
    TemporaryOfA();
    EmptyTotal(Artifact("a", []));
    assert |SET_MANIFEST| == 42 && |"a"| == 1;
  }

  lemma NoManifest(codec: Codec, temp: string, artifacts: seq<Artifact>)
    requires temp != SET_MANIFEST
    ensures RemoveObsolete(codec, map[temp := File([])], artifacts) == (map[temp := File([])], None)
    ensures Entries(codec, map[temp := File([])]) == []
  {
  }

  lemma LoneArtifactSucceeds(codec: Codec, temp: string)
    requires temp == TempPath("a")
    ensures Succeeds(codec, map[temp := File([])], [Artifact("a", [])])
    ensures Entries(codec, map[temp := File([])]) == []
  {
    TemporaryNames("a");
    LoneValid();
    LoneUnblocked(codec);
    LoneCompatible(codec, temp);
    NoManifest(codec, temp, [Artifact("a", [])]);
    UnblockedGenerates(codec, map[temp := File([])], [Artifact("a", [])]);
  }

  // ----- A crash among the removals -----

  /** A file directly in a directory at the root. */
  ghost predicate InDir(dir: string, path: string) {
    ValidRelativePath(path) && Ancestors(path) == {dir} && Parent(path) == dir && |dir| < |path| < |TempPath(path)|
  }

  lemma NamedInDir(dir: string, name: string, path: string)
    requires PlainName(dir) && PlainName(name) && path == dir + "/" + name
    ensures InDir(dir, path)
  {
    TwoLevelPath(dir, name);
    var prefix := DirPrefix(path);
    assert path[|dir|] == '/' && path[..|dir|] == dir;
    assert forall i :: 0 <= i < |path| && path[i] == '/' ==> i == |dir|;
  }

  /** A manifest, a kept file and an obsolete one, all in one directory. */
  ghost predicate Siblings(dir: string, manifest: string, kept: string, obsolete: string) {
    && (forall p {:trigger InDir(dir, p)} :: p in {manifest, kept, obsolete} ==> InDir(dir, p))
    && |dir| < |kept| == |obsolete| < |manifest| && kept != obsolete
  }

  /** A manifest that lists itself before an obsolete file. */
  function SelfListing(manifest: string, obsolete: string): seq<ManifestEntry> {
    [ManifestEntry(manifest, "", 0), ManifestEntry(obsolete, "", 0)]
  }

  function SelfListingTree(dir: string, manifest: string, obsolete: string, bytes: Bytes): FileSystem {
    map[dir := Dir, manifest := File(bytes), obsolete := File([])]
  }

  lemma RemovedExactly(fs: FileSystem, entries: seq<ManifestEntry>, artifacts: seq<Artifact>, after: FileSystem)
    requires forall i :: 0 <= i < |entries| ==> Removable(fs, entries[i].path, artifacts)
    requires forall x :: At(after, x) == if Dropped(entries, artifacts, x) then None else At(fs, x)
    ensures RemoveEntries(fs, entries, artifacts) == (after, None)
  {
    RemovableSucceeds(fs, entries, artifacts);
    var removed := RemoveEntries(fs, entries, artifacts).0;
    forall x ensures At(removed, x) == At(after, x) {
      RemoveEntriesEffect(fs, entries, artifacts, x);
    }
    SameFileSystem(removed, after);
  }

  lemma SelfListingRemovable(dir: string, manifest: string, kept: string, obsolete: string, bytes: Bytes)
    requires Siblings(dir, manifest, kept, obsolete)
    ensures var fs, artifacts := SelfListingTree(dir, manifest, obsolete, bytes), [Artifact(kept, [])];
      && Removable(fs, manifest, artifacts) && Removable(fs, obsolete, artifacts)
      && !HasPath(artifacts, manifest) && !HasPath(artifacts, obsolete)
  {
    var artifacts := [Artifact(kept, [])];
    assert InDir(dir, kept) && artifacts[0].path == kept;
    forall x | x == manifest || x == obsolete ensures ValidRelativePath(x) && ManagedParent(artifacts, x) {
      assert InDir(dir, x);
    }
  }

  lemma SelfListed(manifest: string, obsolete: string, x: string)
    ensures Listed(SelfListing(manifest, obsolete), x) <==> x == manifest || x == obsolete
    ensures Listed(SelfListing(manifest, obsolete)[..1], x) <==> x == manifest
  {
    var entries := SelfListing(manifest, obsolete);
    assert entries[0].path == entries[..1][0].path == manifest && entries[1].path == obsolete;
  }

  lemma SelfListingRemoved(dir: string, manifest: string, kept: string, obsolete: string, bytes: Bytes)
    requires Siblings(dir, manifest, kept, obsolete)
    ensures var fs, artifacts := SelfListingTree(dir, manifest, obsolete, bytes), [Artifact(kept, [])];
      && RemoveEntries(fs, SelfListing(manifest, obsolete), artifacts) == (map[dir := Dir], None)
      && RemoveEntries(fs, SelfListing(manifest, obsolete)[..1], artifacts).0 == map[dir := Dir, obsolete := File([])]
  {
    var fs, artifacts := SelfListingTree(dir, manifest, obsolete, bytes), [Artifact(kept, [])];
    var entries := SelfListing(manifest, obsolete);
    SelfListingRemovable(dir, manifest, kept, obsolete, bytes);
    forall x
      ensures Listed(entries, x) <==> x == manifest || x == obsolete
      ensures Listed(entries[..1], x) <==> x == manifest
    {
      SelfListed(manifest, obsolete, x);
    }
    RemovedExactly(fs, entries, artifacts, map[dir := Dir]);
    RemovedExactly(fs, entries[..1], artifacts, map[dir := Dir, obsolete := File([])]);
  }

  function SelfListingManifest(codec: Codec, obsolete: string): Bytes {
    codec.encode(Manifest("v0", SelfListing(SET_MANIFEST, obsolete)))
  }

  lemma SelfListingRead(codec: Codec, dir: string, obsolete: string)
    requires Lawful(codec) && |SelfListingManifest(codec, obsolete)| <= MAX_ARTIFACT_BYTES
    requires |dir| < |obsolete| < |SET_MANIFEST|
    ensures var fs := SelfListingTree(dir, SET_MANIFEST, obsolete, SelfListingManifest(codec, obsolete));
      PreviousEntries(codec, fs) == Ok(SelfListing(SET_MANIFEST, obsolete))
  {
  }

  lemma SelfListingCleared(codec: Codec, dir: string, kept: string, obsolete: string)
    requires Lawful(codec) && |SelfListingManifest(codec, obsolete)| <= MAX_ARTIFACT_BYTES
    requires Siblings(dir, SET_MANIFEST, kept, obsolete)
    ensures var fs := SelfListingTree(dir, SET_MANIFEST, obsolete, SelfListingManifest(codec, obsolete));
      && PreviousEntries(codec, fs) == Ok(SelfListing(SET_MANIFEST, obsolete))
      && RemoveObsolete(codec, fs, [Artifact(kept, [])]) == (map[dir := Dir], None)
  {
    SelfListingRead(codec, dir, obsolete);
    SelfListingRemoved(dir, SET_MANIFEST, kept, obsolete, SelfListingManifest(codec, obsolete));
  }

  lemma KeptUnblocked(codec: Codec, dir: string, kept: string)
    requires InDir(dir, kept) && Ancestors(SET_MANIFEST) == {dir} && |dir| < |kept| < |SET_MANIFEST|
    ensures Unblocked(WithManifest(codec, [Artifact(kept, [])]))
    ensures Compatible(map[dir := Dir], WithManifest(codec, [Artifact(kept, [])]))
  {
    var list := WithManifest(codec, [Artifact(kept, [])]);
    TempDiffers(SET_MANIFEST);
    assert |list| == 2 && Path(list, 0) == kept && Path(list, 1) == SET_MANIFEST;
  }

  lemma KeptReplaces(codec: Codec, dir: string, kept: string)
    requires InDir(dir, kept) && Ancestors(SET_MANIFEST) == {dir} && |dir| < |kept| < |SET_MANIFEST|
    ensures ReplaceAll(map[dir := Dir], WithManifest(codec, [Artifact(kept, [])])).1.None?
    ensures ValidSet([Artifact(kept, [])])
  {
    var list := WithManifest(codec, [Artifact(kept, [])]);
    EmptyTotal(Artifact(kept, []));
    KeptUnblocked(codec, dir, kept);
    UnblockedSucceeds(map[dir := Dir], list, |list|);
    assert list[..|list|] == list;
  }

  lemma SelfListingSucceeds(codec: Codec, dir: string, kept: string, obsolete: string)
    requires Lawful(codec) && |SelfListingManifest(codec, obsolete)| <= MAX_ARTIFACT_BYTES
    requires Siblings(dir, SET_MANIFEST, kept, obsolete) && Ancestors(SET_MANIFEST) == {dir}
    ensures var fs := SelfListingTree(dir, SET_MANIFEST, obsolete, SelfListingManifest(codec, obsolete));
      Succeeds(codec, fs, [Artifact(kept, [])])
  {
    var fs := SelfListingTree(dir, SET_MANIFEST, obsolete, SelfListingManifest(codec, obsolete));
    var artifacts := [Artifact(kept, [])];
    SelfListingCleared(codec, dir, kept, obsolete);
    assert InDir(dir, kept);
    KeptReplaces(codec, dir, kept);
    assert SafeOutput(fs, kept);
    ValidateIff(fs, artifacts);
    GenerateDecomposed(codec, fs, artifacts);
  }

  lemma ObsoleteNotSwept(codec: Codec, kept: string, obsolete: string)
    requires |obsolete| == |kept| < |SET_MANIFEST|
    ensures !Swept(WithManifest(codec, [Artifact(kept, [])]), obsolete)
  {
    var list := WithManifest(codec, [Artifact(kept, [])]);
    TempDiffers(kept);
    TempDiffers(SET_MANIFEST);
    assert |list| == 2 && Path(list, 0) == kept && Path(list, 1) == SET_MANIFEST;
  }

  lemma SelfListingCrashFails(codec: Codec, dir: string, kept: string, obsolete: string)
    requires Lawful(codec) && |SelfListingManifest(codec, obsolete)| <= MAX_ARTIFACT_BYTES
    requires Siblings(dir, SET_MANIFEST, kept, obsolete) && Ancestors(SET_MANIFEST) == {dir}
    ensures var fs := SelfListingTree(dir, SET_MANIFEST, obsolete, SelfListingManifest(codec, obsolete));
      var artifacts := [Artifact(kept, [])];
      && Succeeds(codec, fs, artifacts) && |Entries(codec, fs)| == 2
      && Generate(codec, RemoveEntries(fs, Entries(codec, fs)[..1], artifacts).0, artifacts, |artifacts| + 1)
         != Generate(codec, fs, artifacts, |artifacts| + 1)
  {
    var fs := SelfListingTree(dir, SET_MANIFEST, obsolete, SelfListingManifest(codec, obsolete));
    var artifacts := [Artifact(kept, [])];
    SelfListingSucceeds(codec, dir, kept, obsolete);
    SelfListingCleared(codec, dir, kept, obsolete);
    SelfListed(SET_MANIFEST, obsolete, SET_MANIFEST);
    SelfListed(SET_MANIFEST, obsolete, obsolete);
    ObsoleteNotSwept(codec, kept, obsolete);
    assert artifacts[0].path == kept;
    assert LeftBehind(codec, fs, artifacts, 1, obsolete);
    RemovalCrashHealsIff(codec, fs, artifacts, 1);
  }

  lemma NamedSiblings(dir: string, manifest: string, kept: string, obsolete: string)
    requires PlainName(dir) && manifest == dir + "/" + "generated-set.json"
    requires kept == dir + "/" + "a" && obsolete == dir + "/" + "b"
    ensures Siblings(dir, manifest, kept, obsolete) && Ancestors(manifest) == {dir}
  {
    NamedInDir(dir, "generated-set.json", manifest);
    NamedInDir(dir, "a", kept);
    NamedInDir(dir, "b", obsolete);
    assert kept[|dir| + 1] == 'a' && obsolete[|dir| + 1] == 'b';
  }

  /** The names of such a tree. */
  predicate SelfListingNames(dir: string, kept: string, obsolete: string) {
    dir == ".repository-engineering" && kept == dir + "/" + "a" && obsolete == dir + "/" + "b"
  }

  lemma ManifestSiblings(dir: string, manifest: string, kept: string, obsolete: string)
    requires SelfListingNames(dir, kept, obsolete) && manifest == SET_MANIFEST
    ensures Siblings(dir, manifest, kept, obsolete) && Ancestors(manifest) == {dir}
  {
    assert manifest == dir + "/" + "generated-set.json";
    NamedSiblings(dir, manifest, kept, obsolete);
  }

  /** Where the previous manifest lists itself first, a crash just after its removal leaves an
      obsolete file that the next run does not remove. */
  lemma RemovalCrashExists(codec: Codec, dir: string, kept: string, obsolete: string)
    requires SelfListingNames(dir, kept, obsolete)
    requires Lawful(codec) && |SelfListingManifest(codec, obsolete)| <= MAX_ARTIFACT_BYTES
    ensures var fs := SelfListingTree(dir, SET_MANIFEST, obsolete, SelfListingManifest(codec, obsolete));
      var artifacts := [Artifact(kept, [])];
      && Succeeds(codec, fs, artifacts) && |Entries(codec, fs)| == 2
      && Generate(codec, RemoveEntries(fs, Entries(codec, fs)[..1], artifacts).0, artifacts, |artifacts| + 1)
         != Generate(codec, fs, artifacts, |artifacts| + 1)
  {
    ManifestSiblings(dir, SET_MANIFEST, kept, obsolete);
    SelfListingCrashFails(codec, dir, kept, obsolete);
  }
}
