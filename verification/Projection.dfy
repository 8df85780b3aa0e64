/** Manifest-last replacement of a generated artifact set, over a map from path to node.

    A replacement goes through a temporary sibling file, so the temporary's name is part of
    the behaviour. */
module Projection {
  import opened Wrappers
  import opened Ordering
  import opened Framing

  const SET_MANIFEST := ".repository-engineering/generated-set.json"
  const TEMP_SUFFIX := ".repository-engineering.tmp"
  const MAX_PATH_BYTES: nat := 1_024
  const MAX_ARTIFACT_BYTES: nat := 8 * 1024 * 1024
  const MAX_SET_BYTES: nat := 64 * 1024 * 1024
  const MAX_ARTIFACTS: nat := 10_000

  datatype Artifact = Artifact(path: string, bytes: Bytes)

  datatype PipelineError =
    | ArtifactCountExceeded | SetManifestReserved | ArtifactTooLarge | SetTooLarge | ArtifactDuplicate
    | PathInvalid | SetManifestInvalid | ObsoletePathUnsafe | OutputLeafUnsafe | OutputParentUnsafe
    | OutputParentCreateFailed | TemporaryUnsafe | ReplaceFailed | ReplacementInterrupted

  // ----- Paths -----

  /** The path up to and including its last slash. */
  function DirPrefix(path: string): (r: string)
    ensures |r| <= |path| && r == path[..|r|]
    ensures forall i :: |r| <= i < |path| ==> path[i] != '/'
    ensures r == "" || r[|r| - 1] == '/'
  {
    if path == "" || path[|path| - 1] == '/' then path else DirPrefix(path[..|path| - 1])
  }

  /** The directory of a path, empty at the root. */
  function Parent(path: string): string {
    var prefix := DirPrefix(path);
    if prefix == "" then "" else prefix[..|prefix| - 1]
  }

  /** The sibling a replacement is written to before it is renamed. */
  function TempPath(path: string): string {
    var prefix := DirPrefix(path);
    prefix + "." + path[|prefix|..] + TEMP_SUFFIX
  }

  /** The directories above a path. */
  function Ancestors(path: string): set<string> {
    set i | 0 < i < |path| && path[i] == '/' :: path[..i]
  }

  function Utf8Len(path: string): nat {
    if path == "" then 0
    else
      var c := path[0] as int;
      (if c < 0x80 then 1 else if c < 0x800 then 2 else if c < 0x1_0000 then 3 else 4) + Utf8Len(path[1..])
  }

  predicate ForbiddenChar(c: char) {
    var n := c as int;
    c == '\\' || c == ':' || n < 0x20 || 0x7F <= n <= 0x9F || n == 0x61C || n == 0x200E || n == 0x200F
    || 0x202A <= n <= 0x202E || 0x2066 <= n <= 0x2069
  }

  /** A segment ends at `i`: before a slash or at the end of the path. */
  predicate SegmentEnd(path: string, i: nat) {
    i == |path| || (i < |path| && path[i] == '/')
  }

  predicate ValidRelativePath(path: string) {
    && path != "" && Utf8Len(path) <= MAX_PATH_BYTES
    && (forall i :: 0 <= i < |path| ==> !ForbiddenChar(path[i]))
    && (forall i: nat :: i <= |path| && SegmentEnd(path, i) ==>
          i > 0 && path[i - 1] != '/' && path[i - 1] != '.' && path[i - 1] != ' ')
  }

  /** A component: between two slashes, or a slash and an end. */
  predicate Component(path: string, i: nat, j: nat) {
    && i <= j <= |path| && (forall k :: i <= k < j ==> path[k] != '/')
    && (i == 0 || path[i - 1] == '/') && (j == |path| || path[j] == '/')
  }

  lemma SegmentStarts(path: string, j: nat)
    returns (i: nat)
    requires j <= |path| && SegmentEnd(path, j)
    ensures Component(path, i, j)
  {
    i := j;
    while i > 0 && path[i - 1] != '/'
      invariant i <= j && forall k :: i <= k < j ==> path[k] != '/'
    {
      i := i - 1;
    }
  }

  /** The marks that set the direction of text. */
  const DIRECTION_MARKS := [
    0x061C, 0x200E, 0x200F, 0x202A, 0x202B, 0x202C, 0x202D, 0x202E, 0x2066, 0x2067, 0x2068, 0x2069]

  /** A control character, a direction mark, a backslash or a colon. */
  predicate Unprintable(c: char) {
    c in ['\\', ':'] || 0 <= c as int <= 31 || 127 <= c as int <= 159 || c as int in DIRECTION_MARKS
  }

  lemma ForbiddenIff(c: char)
    ensures ForbiddenChar(c) <==> Unprintable(c)
  {
    assert DIRECTION_MARKS[0] == 0x061C && DIRECTION_MARKS[1] == 0x200E && DIRECTION_MARKS[2] == 0x200F;
    if 0x202A <= c as int <= 0x202E {
      assert DIRECTION_MARKS[3 + (c as int - 0x202A)] == c as int;
    }
    if 0x2066 <= c as int <= 0x2069 {
      assert DIRECTION_MARKS[8 + (c as int - 0x2066)] == c as int;
    }
  }

  /** One character more takes one to four bytes more. */
  lemma {:induction false} Utf8LenIs(path: string, c: char)
    ensures Utf8Len(path + [c]) == Utf8Len(path) + 1 +
      (if c >= '\U{80}' then 1 else 0) + (if c >= '\U{800}' then 1 else 0) + (if c >= '\U{10000}' then 1 else 0)
  {
    if path != "" {
      assert (path + [c])[1..] == path[1..] + [c];
      Utf8LenIs(path[1..], c);
    } else {
      assert path + [c] == [c] && [c][1..] == "";
    }
  }

  /** A path is valid exactly when it fits 1024 bytes, holds no unprintable character, and every
      component is filled and ends in neither a dot nor a space; so none is "." or "..". */
  lemma ValidPathIff(path: string)
    ensures ValidRelativePath(path) <==>
              && Utf8Len(path) <= 1024 && (forall i :: 0 <= i < |path| ==> !Unprintable(path[i]))
              && forall i: nat, j: nat :: Component(path, i, j) ==> i < j && path[j - 1] !in {'.', ' '}
    ensures ValidRelativePath(path) ==>
              forall i: nat, j: nat :: Component(path, i, j) ==> path[i..j] !in {"", ".", ".."}
  {
    forall i | 0 <= i < |path| ensures ForbiddenChar(path[i]) <==> Unprintable(path[i]) {
      ForbiddenIff(path[i]);
    }
    if forall i: nat, j: nat :: Component(path, i, j) ==> i < j && path[j - 1] !in {'.', ' '} {
      forall j: nat | j <= |path| && SegmentEnd(path, j)
        ensures j > 0 && path[j - 1] != '/' && path[j - 1] != '.' && path[j - 1] != ' '
      {
        var i := SegmentStarts(path, j);
        assert Component(path, i, j);
      }
      assert SegmentEnd(path, |path|);
    }
    if ValidRelativePath(path) {
      forall i: nat, j: nat | Component(path, i, j)
        ensures i < j && path[j - 1] !in {'.', ' '} && path[i..j] !in {"", ".", ".."}
      {
        assert SegmentEnd(path, j);
        assert i < j ==> path[i..j][j - i - 1] == path[j - 1];
      }
    }
  }

  // ----- Artifact sets -----

  function TotalBytes(artifacts: seq<Artifact>): nat {
    if artifacts == [] then 0 else TotalBytes(artifacts[..|artifacts| - 1]) + |artifacts[|artifacts| - 1].bytes|
  }

  predicate DistinctPaths(artifacts: seq<Artifact>) {
    forall i, j :: 0 <= i < j < |artifacts| ==> artifacts[i].path != artifacts[j].path
  }

  /** What the constructor of a projection set checks. */
  predicate Acceptable(artifacts: seq<Artifact>) {
    && |artifacts| <= 10_000
    && TotalBytes(artifacts) <= 67_108_864
    && DistinctPaths(artifacts)
    && forall i :: 0 <= i < |artifacts| ==>
         && ValidRelativePath(artifacts[i].path)
         && artifacts[i].path != ".repository-engineering/generated-set.json"
         && |artifacts[i].bytes| <= 8_388_608
  }

  predicate ByPath(a: Artifact, b: Artifact) {
    StringLe(a.path, b.path)
  }

  /** A constructed projection set: acceptable and in path order. */
  ghost predicate ValidSet(artifacts: seq<Artifact>) {
    Acceptable(artifacts) && SortedBy(ByPath, artifacts)
  }

  // ----- The file system below the output root -----

  /** `Other` is a symbolic link or a special file. */
  datatype Node = File(bytes: Bytes) | Dir | Other

  type FileSystem = map<string, Node>

  function At(fs: FileSystem, path: string): Option<Node> {
    if path in fs then Some(fs[path]) else None
  }

  /** The bytes of a regular file. */
  function ReadRegular(fs: FileSystem, path: string): Option<Bytes> {
    if path in fs && fs[path].File? then Some(fs[path].bytes) else None
  }

  // ----- Manifests -----

  datatype ManifestEntry = ManifestEntry(path: string, sha256: string, byteLength: nat)

  datatype Manifest = Manifest(schemaVersion: string, entries: seq<ManifestEntry>)

  /** The JSON encoding and the digest, of which only that decoding undoes encoding is used. */
  datatype Codec = Codec(encode: Manifest -> Bytes, decode: Bytes -> Option<Manifest>, digest: Bytes -> string)

  ghost predicate Lawful(codec: Codec) {
    forall m :: codec.decode(codec.encode(m)) == Some(m)
  }

  function ManifestOf(codec: Codec, artifacts: seq<Artifact>): Manifest {
    Manifest("v0", seq(|artifacts|, i requires 0 <= i < |artifacts| =>
      ManifestEntry(artifacts[i].path, codec.digest(artifacts[i].bytes), |artifacts[i].bytes|)))
  }

  function ManifestBytes(codec: Codec, artifacts: seq<Artifact>): Bytes {
    codec.encode(ManifestOf(codec, artifacts))
  }

  predicate HasPath(artifacts: seq<Artifact>, path: string) {
    exists i :: 0 <= i < |artifacts| && artifacts[i].path == path
  }

  // ----- Steps of a generation -----

  /** Every directory above an artifact is a directory or absent, every leaf a file or absent. */
  predicate SafeOutput(fs: FileSystem, path: string) {
    && (forall a :: a in Ancestors(path) && a in fs ==> fs[a].Dir?)
    && (path in fs ==> fs[path].File?)
  }

  /** The first artifact whose destination is unsafe decides the error. */
  function ValidateOutputRoot(fs: FileSystem, artifacts: seq<Artifact>): Option<PipelineError> {
    if artifacts == [] then None
    else
      var last := artifacts[|artifacts| - 1].path;
      var before := ValidateOutputRoot(fs, artifacts[..|artifacts| - 1]);
      if before.Some? then before
      else if exists a :: a in Ancestors(last) && a in fs && !fs[a].Dir? then Some(OutputParentUnsafe)
      else if last in fs && !fs[last].File? then Some(OutputLeafUnsafe)
      else None
  }

  function CreateDirs(fs: FileSystem, path: string): FileSystem {
    fs + map a | a in Ancestors(path) && a !in fs :: Dir
  }

  /** Create the parents, write the temporary, rename it over the destination. */
  function ReplaceFile(fs: FileSystem, path: string, bytes: Bytes): (FileSystem, Option<PipelineError>) {
    if exists a :: a in Ancestors(path) && a in fs && fs[a].File? then (fs, Some(OutputParentCreateFailed))
    else if exists a :: a in Ancestors(path) && a in fs && fs[a].Other? then (fs, Some(OutputParentUnsafe))
    else
      var made := CreateDirs(fs, path);
      var temp := TempPath(path);
      if temp in made && !made[temp].File? then (made, Some(TemporaryUnsafe))
      else if path in made && made[path].Dir? then (made[temp := File(bytes)], Some(ReplaceFailed))
      else ((made - {temp})[path := File(bytes)], None)
  }

  function ReplaceAll(fs: FileSystem, artifacts: seq<Artifact>): (FileSystem, Option<PipelineError>) {
    if artifacts == [] then (fs, None)
    else
      var (done, error) := ReplaceAll(fs, artifacts[..|artifacts| - 1]);
      var last := artifacts[|artifacts| - 1];
      if error.Some? then (done, error) else ReplaceFile(done, last.path, last.bytes)
  }

  predicate ManagedParent(artifacts: seq<Artifact>, path: string) {
    exists i :: 0 <= i < |artifacts| && Parent(artifacts[i].path) == Parent(path)
  }

  /** One entry of the previous manifest. */
  function RemoveEntry(fs: FileSystem, path: string, artifacts: seq<Artifact>): (FileSystem, Option<PipelineError>) {
    if !ValidRelativePath(path) then (fs, Some(PathInvalid))
    else if HasPath(artifacts, path) then (fs, None)
    else if !ManagedParent(artifacts, path) then (fs, Some(ObsoletePathUnsafe))
    else if path in fs && !fs[path].File? then (fs, Some(OutputLeafUnsafe))
    else (fs - {path}, None)
  }

  function RemoveEntries(fs: FileSystem, entries: seq<ManifestEntry>, artifacts: seq<Artifact>)
    : (FileSystem, Option<PipelineError>)
  {
    if entries == [] then (fs, None)
    else
      var (done, error) := RemoveEntries(fs, entries[..|entries| - 1], artifacts);
      if error.Some? then (done, error) else RemoveEntry(done, entries[|entries| - 1].path, artifacts)
  }

  /** The entries of the manifest on disk; none when there is no regular manifest file. */
  function PreviousEntries(codec: Codec, fs: FileSystem): Result<seq<ManifestEntry>, PipelineError> {
    match ReadRegular(fs, SET_MANIFEST)
    case None => Ok([])
    case Some(bytes) =>
      if |bytes| > MAX_ARTIFACT_BYTES then Err(SetManifestInvalid)
      else match codec.decode(bytes)
        case None => Err(SetManifestInvalid)
        case Some(manifest) =>
          if manifest.schemaVersion != "v0" || |manifest.entries| > MAX_ARTIFACTS then Err(SetManifestInvalid)
          else Ok(manifest.entries)
  }

  function RemoveObsolete(codec: Codec, fs: FileSystem, artifacts: seq<Artifact>): (FileSystem, Option<PipelineError>) {
    match PreviousEntries(codec, fs)
    case Err(error) => (fs, Some(error))
    case Ok(entries) => RemoveEntries(fs, entries, artifacts)
  }

  /** A whole generation, interrupted before its `stopAfter`-th replacement; the manifest is
      the replacement after the last artifact. */
  function Generate(codec: Codec, fs: FileSystem, artifacts: seq<Artifact>, stopAfter: nat)
    : (FileSystem, Option<PipelineError>)
  {
    var unsafe := ValidateOutputRoot(fs, artifacts);
    if unsafe.Some? then (fs, unsafe)
    else
      var (cleared, error) := RemoveObsolete(codec, fs, artifacts);
      if error.Some? then (cleared, error)
      else
        var (replaced, failed) :=
          ReplaceAll(cleared, if stopAfter <= |artifacts| then artifacts[..stopAfter] else artifacts);
        if failed.Some? then (replaced, failed)
        else if stopAfter <= |artifacts| then (replaced, Some(ReplacementInterrupted))
        else ReplaceFile(replaced, SET_MANIFEST, ManifestBytes(codec, artifacts))
  }

  // ----- Checking -----

  datatype Finding = Finding(path: string, code: string)

  const STALE := "generated.artifact.stale"
  const MISSING := "generated.artifact.missing"
  const MANIFEST_STALE := "generated.set_manifest.stale"
  const EXTRA := "generated.artifact.extra"

  const MAX_FINDINGS: nat := 256

  predicate FindingLe(a: Finding, b: Finding) {
    if a.path == b.path then StringLe(a.code, b.code) else StringLe(a.path, b.path)
  }

  /** Every artifact and the manifest are on disk with the expected bytes. */
  predicate UpToDate(codec: Codec, fs: FileSystem, artifacts: seq<Artifact>) {
    ArtifactsMatch(fs, artifacts) && At(fs, SET_MANIFEST) == Some(File(ManifestBytes(codec, artifacts)))
  }

  predicate ArtifactsMatch(fs: FileSystem, artifacts: seq<Artifact>) {
    forall i :: 0 <= i < |artifacts| ==> At(fs, artifacts[i].path) == Some(File(artifacts[i].bytes))
  }

  /** The error names the first fault of the artifact, in the order they are looked for. */
  predicate Faulty(before: seq<Artifact>, artifact: Artifact, error: PipelineError) {
    FirstFault(ValidRelativePath(artifact.path), artifact.path == ".repository-engineering/generated-set.json",
               |artifact.bytes|, TotalBytes(before) + |artifact.bytes|, HasPath(before, artifact.path), error)
  }

  predicate FirstFault(valid: bool, reserved: bool, size: nat, total: nat, listed: bool, error: PipelineError) {
    match error
    case PathInvalid => !valid
    case SetManifestReserved => valid && reserved
    case ArtifactTooLarge => valid && !reserved && size > 8_388_608
    case SetTooLarge => valid && !reserved && size <= 8_388_608 && total > 67_108_864
    case ArtifactDuplicate => valid && !reserved && size <= 8_388_608 && total <= 67_108_864 && listed
    case _ => false
  }

  lemma OneFirst(valid: bool, reserved: bool, size: nat, total: nat, listed: bool, a: PipelineError, b: PipelineError)
    requires FirstFault(valid, reserved, size, total, listed, a)
    ensures FirstFault(valid, reserved, size, total, listed, b) ==> a == b
    ensures !valid || reserved || size > 8_388_608 || total > 67_108_864 || listed
  {
  }

  /** An artifact with an error does not keep the set acceptable, and has that error only. */
  lemma OneFault(before: seq<Artifact>, artifact: Artifact, a: PipelineError, b: PipelineError)
    requires Faulty(before, artifact, a)
    ensures Faulty(before, artifact, b) ==> a == b
    ensures !AcceptableWith(before, artifact)
  {
    OneFirst(ValidRelativePath(artifact.path), artifact.path == ".repository-engineering/generated-set.json",
             |artifact.bytes|, TotalBytes(before) + |artifact.bytes|, HasPath(before, artifact.path), a, b);
  }

  ghost predicate FaultAt(artifacts: seq<Artifact>, n: nat, error: PipelineError) {
    n < |artifacts| && Acceptable(artifacts[..n]) && Faulty(artifacts[..n], artifacts[n], error)
  }

  /** The checks on one artifact, given those before it. */
  method CheckArtifact(ghost before: seq<Artifact>, total: nat, paths: set<string>, artifact: Artifact)
    returns (error: Option<PipelineError>)
    requires total == TotalBytes(before) && forall path :: path in paths <==> HasPath(before, path)
    ensures error.None? <==> AcceptableWith(before, artifact)
    ensures error.Some? ==> Faulty(before, artifact, error.value)
  {
    if !ValidRelativePath(artifact.path) {
      return Some(PathInvalid);
    }
    if artifact.path == SET_MANIFEST {
      return Some(SetManifestReserved);
    }
    if |artifact.bytes| > MAX_ARTIFACT_BYTES {
      return Some(ArtifactTooLarge);
    }
    if total + |artifact.bytes| > MAX_SET_BYTES {
      return Some(SetTooLarge);
    }
    if artifact.path in paths {
      return Some(ArtifactDuplicate);
    }
    return None;
  }

  lemma NextAcceptable(artifacts: seq<Artifact>, n: nat)
    requires n < |artifacts| <= MAX_ARTIFACTS && Acceptable(artifacts[..n])
    ensures TotalBytes(artifacts[..n + 1]) == TotalBytes(artifacts[..n]) + |artifacts[n].bytes|
    ensures Acceptable(artifacts[..n + 1]) <==> AcceptableWith(artifacts[..n], artifacts[n])
    ensures Acceptable(artifacts) ==> Acceptable(artifacts[..n + 1])
    ensures forall path :: HasPath(artifacts[..n + 1], path) <==>
        path == artifacts[n].path || HasPath(artifacts[..n], path)
  {
    AcceptableGrows(artifacts[..n], artifacts[n]);
    assert artifacts[..n + 1] == artifacts[..n] + [artifacts[n]];
    if Acceptable(artifacts) {
      PrefixAcceptable(artifacts, n + 1);
    }
  }

  method NewProjectionSet(artifacts: seq<Artifact>) returns (r: Result<seq<Artifact>, PipelineError>)
    ensures r.Ok? <==> Acceptable(artifacts)
    ensures r.Ok? ==> ValidSet(r.value) && multiset(r.value) == multiset(artifacts)
    ensures |artifacts| > 10_000 ==> r == Err(ArtifactCountExceeded)
    ensures |artifacts| <= 10_000 && r.Err? ==> exists n :: FaultAt(artifacts, n, r.error)
  {
    if |artifacts| > MAX_ARTIFACTS {
      return Err(ArtifactCountExceeded);
    }
    var total := 0;
    var paths: set<string> := {};
    for i := 0 to |artifacts|
      invariant Acceptable(artifacts[..i]) && total == TotalBytes(artifacts[..i])
      invariant forall path :: path in paths <==> HasPath(artifacts[..i], path)
    {
      NextAcceptable(artifacts, i);
      var error := CheckArtifact(artifacts[..i], total, paths, artifacts[i]);
      if error.Some? {
        assert FaultAt(artifacts, i, error.value);
        return Err(error.value);
      }
      total := total + |artifacts[i].bytes|;
      paths := paths + {artifacts[i].path};
    }
    assert artifacts[..|artifacts|] == artifacts;
    SortKeepsAcceptable(artifacts);
    return Ok(SortBy(ByPath, artifacts));
  }

  /** One more artifact passes the checks of the constructor. */
  predicate AcceptableWith(before: seq<Artifact>, artifact: Artifact) {
    && ValidRelativePath(artifact.path)
    && artifact.path != SET_MANIFEST
    && |artifact.bytes| <= MAX_ARTIFACT_BYTES
    && TotalBytes(before) + |artifact.bytes| <= MAX_SET_BYTES
    && !HasPath(before, artifact.path)
  }

  lemma AcceptableGrows(before: seq<Artifact>, artifact: Artifact)
    requires Acceptable(before)
    ensures var after := before + [artifact];
      && TotalBytes(after) == TotalBytes(before) + |artifact.bytes|
      && (Acceptable(after) <==> AcceptableWith(before, artifact) && |after| <= MAX_ARTIFACTS)
      && forall path :: HasPath(after, path) <==> path == artifact.path || HasPath(before, path)
  {
    var after := before + [artifact];
    assert after[..|before|] == before;
    assert after[|before|] == artifact;
    forall path ensures HasPath(after, path) <==> path == artifact.path || HasPath(before, path) {
      if HasPath(before, path) {
        var i :| 0 <= i < |before| && before[i].path == path;
        assert after[i].path == path;
      }
    }
    if Acceptable(after) {
      forall i | 0 <= i < |before| ensures before[i].path != artifact.path {
        assert after[i].path != after[|before|].path;
      }
    }
    if AcceptableWith(before, artifact) {
      forall i, j | 0 <= i < j < |after| ensures after[i].path != after[j].path {
      }
    }
  }

  lemma PrefixAcceptable(artifacts: seq<Artifact>, n: nat)
    requires Acceptable(artifacts) && n <= |artifacts|
    ensures Acceptable(artifacts[..n])
  {
    TotalGrows(artifacts, n);
  }

  lemma {:induction false} TotalGrows(artifacts: seq<Artifact>, n: nat)
    requires n <= |artifacts|
    ensures TotalBytes(artifacts[..n]) <= TotalBytes(artifacts)
    decreases |artifacts|
  {
    if n < |artifacts| {
      var front := artifacts[..|artifacts| - 1];
      TotalGrows(front, n);
      assert front[..n] == artifacts[..n];
    } else {
      assert artifacts[..n] == artifacts;
    }
  }

  lemma {:induction false} TotalOfConcat(a: seq<Artifact>, b: seq<Artifact>)
    ensures TotalBytes(a + b) == TotalBytes(a) + TotalBytes(b)
  {
    if b == [] {
      assert a + b == a;
    } else {
      TotalOfConcat(a, b[..|b| - 1]);
      assert (a + b)[..|a + b| - 1] == a + b[..|b| - 1];
    }
  }

  lemma {:induction false} InsertKeeps(x: Artifact, s: seq<Artifact>)
    requires DistinctPaths(s) && !HasPath(s, x.path)
    ensures var r := InsertBy(ByPath, x, s);
      && DistinctPaths(r)
      && TotalBytes(r) == |x.bytes| + TotalBytes(s)
      && forall path :: HasPath(r, path) <==> path == x.path || HasPath(s, path)
  {
    if s == [] || ByPath(x, s[0]) {
      ConsKeeps(x, s);
    } else {
      var rest := InsertBy(ByPath, x, s[1..]);
      assert s == [s[0]] + s[1..];
      ConsKeeps(s[0], s[1..]);
      InsertKeeps(x, s[1..]);
      ConsKeeps(s[0], rest);
    }
  }

  lemma ConsKeeps(x: Artifact, s: seq<Artifact>)
    ensures var r := [x] + s;
      && (DistinctPaths(r) <==> DistinctPaths(s) && !HasPath(s, x.path))
      && TotalBytes(r) == |x.bytes| + TotalBytes(s)
      && forall path :: HasPath(r, path) <==> path == x.path || HasPath(s, path)
  {
    var r := [x] + s;
    TotalOfConcat([x], s);
    assert TotalBytes([x]) == |x.bytes| by { assert [x][..0] == []; }
    HasPathOfCons(x, s);
    if DistinctPaths(r) {
      forall i, j | 0 <= i < j < |s| ensures s[i].path != s[j].path {
        assert r[i + 1].path != r[j + 1].path;
      }
      forall i | 0 <= i < |s| ensures s[i].path != x.path {
        assert r[0].path != r[i + 1].path;
      }
    }
  }

  lemma HasPathOfCons(x: Artifact, s: seq<Artifact>)
    ensures forall path :: HasPath([x] + s, path) <==> path == x.path || HasPath(s, path)
  {
    forall path ensures HasPath([x] + s, path) <==> path == x.path || HasPath(s, path) {
      assert ([x] + s)[0] == x;
      if HasPath(s, path) {
        var i :| 0 <= i < |s| && s[i].path == path;
        assert ([x] + s)[i + 1].path == path;
      }
    }
  }

  lemma {:induction false} SortKeeps(s: seq<Artifact>)
    requires DistinctPaths(s)
    ensures var r := SortBy(ByPath, s);
      && DistinctPaths(r) && TotalBytes(r) == TotalBytes(s)
      && forall path :: HasPath(r, path) <==> HasPath(s, path)
  {
    if s != [] {
      assert s == [s[0]] + s[1..];
      ConsKeeps(s[0], s[1..]);
      SortKeeps(s[1..]);
      InsertKeeps(s[0], SortBy(ByPath, s[1..]));
    }
  }

  lemma SortKeepsAcceptable(artifacts: seq<Artifact>)
    requires Acceptable(artifacts)
    ensures ValidSet(SortBy(ByPath, artifacts))
  {
    SortKeeps(artifacts);
    StringOrder();
    SortSorted(ByPath, artifacts);
    var sorted := SortBy(ByPath, artifacts);
    SameElements(sorted, artifacts);
    forall i | 0 <= i < |sorted| ensures sorted[i] in artifacts {
      assert sorted[i] in sorted;
    }
  }

  lemma {:induction false} EntriesGrow(done: FileSystem, fs: FileSystem, entries: seq<ManifestEntry>,
        artifacts: seq<Artifact>, n: nat)
    requires n <= |entries| && RemoveEntries(fs, entries[..n], artifacts) == (done, None)
    ensures n < |entries| ==>
              RemoveEntries(fs, entries[..n + 1], artifacts) == RemoveEntry(done, entries[n].path, artifacts)
  {
    if n < |entries| {
      assert entries[..n + 1][..n] == entries[..n];
    }
  }

  lemma {:induction false} EntriesFail(fs: FileSystem, entries: seq<ManifestEntry>, artifacts: seq<Artifact>, n: nat)
    requires n <= |entries| && RemoveEntries(fs, entries[..n], artifacts).1.Some?
    ensures RemoveEntries(fs, entries, artifacts) == RemoveEntries(fs, entries[..n], artifacts)
    decreases |entries|
  {
    if n < |entries| {
      var front := entries[..|entries| - 1];
      assert front[..n] == entries[..n];
      EntriesFail(fs, front, artifacts, n);
    } else {
      assert entries[..n] == entries;
    }
  }

  lemma {:induction false} ReplaceFail(fs: FileSystem, artifacts: seq<Artifact>, n: nat)
    requires n <= |artifacts| && ReplaceAll(fs, artifacts[..n]).1.Some?
    ensures ReplaceAll(fs, artifacts) == ReplaceAll(fs, artifacts[..n])
    decreases |artifacts|
  {
    if n < |artifacts| {
      var front := artifacts[..|artifacts| - 1];
      assert front[..n] == artifacts[..n];
      ReplaceFail(fs, front, n);
    } else {
      assert artifacts[..n] == artifacts;
    }
  }

  lemma {:induction false} ValidateFail(fs: FileSystem, artifacts: seq<Artifact>, n: nat)
    requires n <= |artifacts| && ValidateOutputRoot(fs, artifacts[..n]).Some?
    ensures ValidateOutputRoot(fs, artifacts) == ValidateOutputRoot(fs, artifacts[..n])
    decreases |artifacts|
  {
    if n < |artifacts| {
      var front := artifacts[..|artifacts| - 1];
      assert front[..n] == artifacts[..n];
      ValidateFail(fs, front, n);
    } else {
      assert artifacts[..n] == artifacts;
    }
  }

  // ----- The output root -----

  /** One more replacement of a run that succeeded so far; the first failure ends the run. */
  lemma ReplaceNext(fs: FileSystem, artifacts: seq<Artifact>, n: nat)
    requires n < |artifacts| && ReplaceAll(fs, artifacts[..n]).1.None?
    ensures var next := ReplaceFile(ReplaceAll(fs, artifacts[..n]).0, artifacts[n].path, artifacts[n].bytes);
      ReplaceAll(fs, artifacts[..n + 1]) == next && (next.1.Some? ==> ReplaceAll(fs, artifacts) == next)
  {
    assert artifacts[..n + 1][..n] == artifacts[..n];
    if ReplaceAll(fs, artifacts[..n + 1]).1.Some? {
      ReplaceFail(fs, artifacts, n + 1);
    }
  }

  class OutputRoot {
    var fs: FileSystem
    const codec: Codec

    constructor (codec: Codec, fs: FileSystem)
      ensures this.codec == codec && this.fs == fs
    {
      this.codec, this.fs := codec, fs;
    }

    method ValidateOutput(artifacts: seq<Artifact>) returns (error: Option<PipelineError>)
      ensures error == ValidateOutputRoot(fs, artifacts)
    {
      for i := 0 to |artifacts|
        invariant ValidateOutputRoot(fs, artifacts[..i]).None?
      {
        var path := artifacts[i].path;
        assert artifacts[..i + 1][..i] == artifacts[..i];
        if exists a :: a in Ancestors(path) && a in fs && !fs[a].Dir? {
          ValidateFail(fs, artifacts, i + 1);
          return Some(OutputParentUnsafe);
        }
        if path in fs && !fs[path].File? {
          ValidateFail(fs, artifacts, i + 1);
          return Some(OutputLeafUnsafe);
        }
      }
      assert artifacts[..|artifacts|] == artifacts;
      return None;
    }

    method RemoveObsoleteArtifacts(artifacts: seq<Artifact>) returns (error: Option<PipelineError>)
      modifies this
      ensures (fs, error) == RemoveObsolete(codec, old(fs), artifacts)
    {
      var previous := PreviousEntries(codec, fs);
      if previous.Err? {
        return Some(previous.error);
      }
      var entries := previous.value;
      ghost var before := fs;
      for i := 0 to |entries|
        invariant RemoveEntries(before, entries[..i], artifacts) == (fs, None)
      {
        EntriesGrow(fs, before, entries, artifacts, i);
        var path := entries[i].path;
        if !ValidRelativePath(path) {
          EntriesFail(before, entries, artifacts, i + 1);
          return Some(PathInvalid);
        }
        if HasPath(artifacts, path) {
          continue;
        }
        if !ManagedParent(artifacts, path) {
          EntriesFail(before, entries, artifacts, i + 1);
          return Some(ObsoletePathUnsafe);
        }
        if path in fs && !fs[path].File? {
          EntriesFail(before, entries, artifacts, i + 1);
          return Some(OutputLeafUnsafe);
        }
        fs := fs - {path};
      }
      assert entries[..|entries|] == entries;
      return None;
    }

    method Replace(path: string, bytes: Bytes) returns (error: Option<PipelineError>)
      modifies this
      ensures (fs, error) == ReplaceFile(old(fs), path, bytes)
    {
      if exists a :: a in Ancestors(path) && a in fs && fs[a].File? {
        return Some(OutputParentCreateFailed);
      }
      if exists a :: a in Ancestors(path) && a in fs && fs[a].Other? {
        return Some(OutputParentUnsafe);
      }
      fs := CreateDirs(fs, path);
      var temp := TempPath(path);
      if temp in fs {
        if !fs[temp].File? {
          return Some(TemporaryUnsafe);
        }
        fs := fs - {temp};
      }
      TempDiffers(path);
      fs := fs[temp := File(bytes)];
      if path in fs && fs[path].Dir? {
        assert fs == CreateDirs(old(fs), path)[temp := File(bytes)];
        return Some(ReplaceFailed);
      }
      assert fs - {temp} == CreateDirs(old(fs), path) - {temp};
      fs := (fs - {temp})[path := File(bytes)];
      return None;
    }

    /** The loop over the artifacts: an interruption is observed before the replacement whose
        index is `stopAfter`. */
    method ReplaceArtifacts(artifacts: seq<Artifact>, stopAfter: nat) returns (error: Option<PipelineError>)
      modifies this
      ensures var (replaced, failed) :=
          ReplaceAll(old(fs), if stopAfter <= |artifacts| then artifacts[..stopAfter] else artifacts);
        && fs == replaced
        && error == if failed.None? && stopAfter < |artifacts| then Some(ReplacementInterrupted) else failed
    {
      ghost var start := fs;
      ghost var due := if stopAfter <= |artifacts| then artifacts[..stopAfter] else artifacts;
      for i := 0 to |artifacts|
        invariant i <= |due| && ReplaceAll(start, due[..i]) == (fs, None)
      {
        if i == stopAfter {
          assert due[..i] == due;
          return Some(ReplacementInterrupted);
        }
        ReplaceNext(start, due, i);
        error := Replace(artifacts[i].path, artifacts[i].bytes);
        if error.Some? {
          return;
        }
      }
      assert due[..|artifacts|] == due;
      return None;
    }

    method GenerateProjectionSet(artifacts: seq<Artifact>, stopAfter: nat) returns (error: Option<PipelineError>)
      modifies this
      ensures (fs, error) == Generate(codec, old(fs), artifacts, stopAfter)
    {
      error := ValidateOutput(artifacts);
      if error.Some? {
        return;
      }
      error := RemoveObsoleteArtifacts(artifacts);
      if error.Some? {
        return;
      }
      error := ReplaceArtifacts(artifacts, stopAfter);
      if error.Some? {
        return;
      }
      if |artifacts| == stopAfter {
        return Some(ReplacementInterrupted);
      }
      error := Replace(SET_MANIFEST, ManifestBytes(codec, artifacts));
    }

    method CheckArtifacts(artifacts: seq<Artifact>) returns (findings: seq<Finding>)
      ensures findings == ArtifactFindings(fs, artifacts)
    {
      findings := [];
      for i := 0 to |artifacts|
        invariant findings == ArtifactFindings(fs, artifacts[..i])
      {
        assert artifacts[..i + 1][..i] == artifacts[..i];
        var actual := ReadRegular(fs, artifacts[i].path);
        if actual.None? {
          findings := findings + [Finding(artifacts[i].path, MISSING)];
        } else if actual.value != artifacts[i].bytes {
          findings := findings + [Finding(artifacts[i].path, STALE)];
        }
      }
      assert artifacts[..|artifacts|] == artifacts;
    }

    method CheckExtras(entries: seq<ManifestEntry>, artifacts: seq<Artifact>) returns (findings: seq<Finding>)
      ensures findings == ExtraFindings(entries, artifacts)
    {
      findings := [];
      for i := 0 to |entries|
        invariant findings == ExtraFindings(entries[..i], artifacts)
      {
        assert entries[..i + 1][..i] == entries[..i];
        if !HasPath(artifacts, entries[i].path) {
          findings := findings + [Finding(entries[i].path, EXTRA)];
        }
      }
      assert entries[..|entries|] == entries;
    }

    method CheckProjectionSet(artifacts: seq<Artifact>) returns (findings: seq<Finding>)
      ensures findings == Reported(CheckFindings(codec, fs, artifacts))
    {
      findings := CheckArtifacts(artifacts);
      var actual := ReadRegular(fs, SET_MANIFEST);
      if actual != Some(ManifestBytes(codec, artifacts)) {
        findings := findings + [Finding(SET_MANIFEST, MANIFEST_STALE)];
      }
      if actual.Some? {
        var previous := codec.decode(actual.value);
        if previous.Some? {
          var extras := CheckExtras(previous.value.entries, artifacts);
          findings := findings + extras;
        }
      }
      assert findings == CheckFindings(codec, fs, artifacts);
      findings := Reported(findings);
    }
  }

  // ----- What a check reports -----

  function ArtifactFindings(fs: FileSystem, artifacts: seq<Artifact>): seq<Finding> {
    if artifacts == [] then []
    else
      var last := artifacts[|artifacts| - 1];
      ArtifactFindings(fs, artifacts[..|artifacts| - 1]) +
      match ReadRegular(fs, last.path)
      case None => [Finding(last.path, MISSING)]
      case Some(actual) => if actual == last.bytes then [] else [Finding(last.path, STALE)]
  }

  function ExtraFindings(entries: seq<ManifestEntry>, artifacts: seq<Artifact>): seq<Finding> {
    if entries == [] then []
    else
      var last := entries[|entries| - 1].path;
      ExtraFindings(entries[..|entries| - 1], artifacts) +
        if HasPath(artifacts, last) then [] else [Finding(last, EXTRA)]
  }

  function CheckFindings(codec: Codec, fs: FileSystem, artifacts: seq<Artifact>): seq<Finding> {
    var actual := ReadRegular(fs, SET_MANIFEST);
    ArtifactFindings(fs, artifacts)
    + (if actual == Some(ManifestBytes(codec, artifacts)) then [] else [Finding(SET_MANIFEST, MANIFEST_STALE)])
    + match actual
      case None => []
      case Some(bytes) =>
        match codec.decode(bytes)
        case None => []
        case Some(manifest) => ExtraFindings(manifest.entries, artifacts)
  }

  /** Sorted, and cut to the first 256. */
  function Reported(findings: seq<Finding>): seq<Finding> {
    var sorted := SortBy(FindingLe, findings);
    if |sorted| <= MAX_FINDINGS then sorted else sorted[..MAX_FINDINGS]
  }

  lemma TempDiffers(path: string)
    ensures |TempPath(path)| > |path|
    ensures TempPath(path) !in Ancestors(path) && TempPath(path) != path
    ensures path !in Ancestors(path)
  {
  }
}
