/** The declared-input fingerprint: inventory validation, coverage, the byte stream that is
    hashed, and the watch projection. */
module Fingerprint {
  import opened Wrappers
  import opened Ordering
  import opened Framing
  import opened SourceTree

  // ----- Declared inputs -----

  datatype Component = Normal(name: Name) | CurDir | ParentDir | RootDir | Prefix

  datatype FingerprintInput = FingerprintInput(logicalLabel: Bytes, path: seq<Component>, kind: Kind)

  /** A declared input with its path normalized. */
  datatype Entry = Entry(logicalLabel: Bytes, path: RelPath, kind: Kind)

  function Normalize(path: seq<Component>): Option<RelPath> {
    if path == [] then Some([])
    else
      match Normalize(path[..|path| - 1])
      case None => None
      case Some(names) =>
        match path[|path| - 1]
        case Normal(name) => Some(names + [name])
        case CurDir => Some(names)
        case _ => None
  }

  predicate Escapes(component: Component) {
    !component.Normal? && !component.CurDir?
  }

  lemma {:induction false} NormalizeFails(path: seq<Component>)
    ensures Normalize(path).None? <==> exists c :: c in path && Escapes(c)
  {
    if path != [] {
      var n := |path| - 1;
      NormalizeFails(path[..n]);
      assert forall c :: c in path <==> c in path[..n] || c == path[n];
      assert path[n] in path;
      if Normalize(path[..n]).None? {
        var c :| c in path[..n] && Escapes(c);
        assert c in path;
      }
    }
  }

  function AsNormal(name: Name): Component {
    Normal(name)
  }

  lemma {:induction false} NormalizePlain(path: seq<Component>, names: RelPath)
    requires |path| == |names| && forall i :: 0 <= i < |path| ==> path[i] == Normal(names[i])
    ensures Normalize(path) == Some(names)
  {
    if names != [] {
      var n := |names| - 1;
      NormalizePlain(path[..n], names[..n]);
      assert names == names[..n] + [names[n]];
    }
  }

  lemma NormalizeNormal(names: RelPath)
    ensures Normalize(Map(AsNormal, names)) == Some(names)
  {
    NormalizePlain(Map(AsNormal, names), names);
  }

  method NormalizeRelative(path: seq<Component>) returns (r: Option<RelPath>)
    ensures r == Normalize(path)
    ensures r.None? <==> exists c :: c in path && Escapes(c)
  {
    NormalizeFails(path);
    var normalized: RelPath := [];
    for i := 0 to |path|
      invariant Normalize(path[..i]) == Some(normalized)
    {
      assert path[..i + 1][..i] == path[..i];
      match path[i]
      case CurDir =>
      case Normal(name) => normalized := normalized + [name];
      case _ =>
        assert path[i] in path && Escapes(path[i]);
        return None;
    }
    assert path[..|path|] == path;
    return Some(normalized);
  }

  function Normalized(input: FingerprintInput): Entry {
    Entry(input.logicalLabel, match Normalize(input.path) case None => [] case Some(path) => path, input.kind)
  }

  function Entries(inventory: seq<FingerprintInput>): seq<Entry> {
    Map(Normalized, inventory)
  }

  /** Whether a path belongs to a declared input. */
  predicate Covers(input: FingerprintInput, candidate: seq<Component>) {
    && Normalize(input.path).Some? && Normalize(candidate).Some?
    && var declared, path := Normalize(input.path).value, Normalize(candidate).value;
       path == declared || (input.kind.TreeKind? && declared <= path)
  }

  // ----- Validation -----

  predicate KindMatches(kind: Kind, node: FsNode) {
    if kind.FileKind? then node.RegularFile? else node.Directory?
  }

  predicate Present(root: FsNode, input: FingerprintInput) {
    && input.logicalLabel != [] && Normalize(input.path).Some? && Normalize(input.path) != Some([])
    && match Lookup(root, Normalize(input.path).value)
       case Some(RegularFile(_)) => input.kind == FileKind
       case Some(Directory(_)) => input.kind == TreeKind
       case _ => false
  }

  predicate Overlap(a: Entry, b: Entry) {
    || (a.kind.TreeKind? && a.path <= b.path)
    || (b.kind.TreeKind? && b.path <= a.path)
  }

  ghost predicate DistinctLabels(inventory: seq<FingerprintInput>) {
    forall i, j :: 0 <= i < j < |inventory| ==> inventory[i].logicalLabel != inventory[j].logicalLabel
  }

  ghost predicate Apart(inventory: seq<FingerprintInput>) {
    forall i, j :: 0 <= i < j < |inventory| ==>
      && Normalized(inventory[i]).path != Normalized(inventory[j]).path
      && !Overlap(Normalized(inventory[i]), Normalized(inventory[j]))
  }

  ghost predicate ValidInventory(root: FsNode, inventory: seq<FingerprintInput>) {
    && root.Directory?
    && (forall i :: 0 <= i < |inventory| ==> Present(root, inventory[i]))
    && DistinctLabels(inventory) && Apart(inventory)
  }

  datatype Problem =
    | RootNotDirectory | BadLabel | EscapingPath | BadPath | Unreadable | IsSymlink | WrongNodeType | Overlapping

  /** What is wrong with one input, given the inputs before it. */
  ghost function EntryProblem(root: FsNode, earlier: seq<FingerprintInput>, input: FingerprintInput): Option<Problem> {
    if input.logicalLabel == [] ||
       exists k :: 0 <= k < |earlier| && earlier[k].logicalLabel == input.logicalLabel then Some(BadLabel)
    else
      match Normalize(input.path)
      case None => Some(EscapingPath)
      case Some(path) =>
        if path == [] || (exists k :: 0 <= k < |earlier| && Normalized(earlier[k]).path == path) then Some(BadPath)
        else
          match Lookup(root, path)
          case None => Some(Unreadable)
          case Some(node) =>
            if node.Symlink? then Some(IsSymlink)
            else if !KindMatches(input.kind, node) then Some(WrongNodeType)
            else None
  }

  ghost predicate FineBefore(root: FsNode, inventory: seq<FingerprintInput>, n: nat)
    requires n <= |inventory|
  {
    forall k :: 0 <= k < n ==> EntryProblem(root, inventory[..k], inventory[k]).None?
  }

  ghost predicate FailsFirst(root: FsNode, inventory: seq<FingerprintInput>, n: nat, problem: Problem) {
    n < |inventory| && FineBefore(root, inventory, n) &&
      EntryProblem(root, inventory[..n], inventory[n]) == Some(problem)
  }

  lemma FineIff(root: FsNode, inventory: seq<FingerprintInput>)
    ensures FineBefore(root, inventory, |inventory|) <==>
      && (forall i :: 0 <= i < |inventory| ==> Present(root, inventory[i]))
      && DistinctLabels(inventory)
      && forall i, j :: 0 <= i < j < |inventory| ==> Normalized(inventory[i]).path != Normalized(inventory[j]).path
  {
    if FineBefore(root, inventory, |inventory|) {
      forall i, j | 0 <= i < j < |inventory|
        ensures inventory[i].logicalLabel != inventory[j].logicalLabel
        ensures Normalized(inventory[i]).path != Normalized(inventory[j]).path
      {
        assert EntryProblem(root, inventory[..j], inventory[j]).None?;
        assert inventory[..j][i] == inventory[i];
      }
    }
  }

  /** The labels and paths of the inputs seen so far. */
  ghost predicate Seen(earlier: seq<FingerprintInput>, labels: set<Bytes>, paths: set<RelPath>) {
    && (forall l :: l in labels <==> exists k :: 0 <= k < |earlier| && earlier[k].logicalLabel == l)
    && (forall p :: p in paths <==> exists k :: 0 <= k < |earlier| && Normalized(earlier[k]).path == p)
  }

  lemma SeenNext(earlier: seq<FingerprintInput>, labels: set<Bytes>, paths: set<RelPath>, input: FingerprintInput)
    requires Seen(earlier, labels, paths)
    ensures Seen(earlier + [input], labels + {input.logicalLabel}, paths + {Normalized(input).path})
  {
    var now := earlier + [input];
    forall l ensures l in labels + {input.logicalLabel} <==> exists k :: 0 <= k < |now| && now[k].logicalLabel == l {
      if k :| 0 <= k < |earlier| && earlier[k].logicalLabel == l {
        assert now[k].logicalLabel == l;
      }
      assert now[|earlier|].logicalLabel == input.logicalLabel;
    }
    forall p
      ensures p in paths + {Normalized(input).path} <==> exists k :: 0 <= k < |now| && Normalized(now[k]).path == p
    {
      if k :| 0 <= k < |earlier| && Normalized(earlier[k]).path == p {
        assert Normalized(now[k]).path == p;
      }
      assert Normalized(now[|earlier|]) == Normalized(input);
    }
  }

  /** Checks one input against the sets of labels and paths seen so far. */
  method ValidateInput(root: FsNode, ghost earlier: seq<FingerprintInput>, labels: set<Bytes>, paths: set<RelPath>,
                       input: FingerprintInput)
    returns (r: Result<Entry, Problem>)
    requires Seen(earlier, labels, paths)
    ensures r == match EntryProblem(root, earlier, input)
                 case Some(problem) => Err(problem)
                 case None => Ok(Normalized(input))
  {
    if input.logicalLabel == [] || input.logicalLabel in labels {
      return Err(BadLabel);
    }
    var normalized := NormalizeRelative(input.path);
    if normalized.None? {
      return Err(EscapingPath);
    }
    var path := normalized.value;
    if path == [] || path in paths {
      return Err(BadPath);
    }
    match Lookup(root, path)
    case None => return Err(Unreadable);
    case Some(node) =>
      if node.Symlink? {
        return Err(IsSymlink);
      }
      if !KindMatches(input.kind, node) {
        return Err(WrongNodeType);
      }
      return Ok(Entry(input.logicalLabel, path, input.kind));
  }

  method FindOverlap(entries: seq<Entry>) returns (found: bool)
    ensures found <==> exists i, j :: 0 <= i < j < |entries| && Overlap(entries[i], entries[j])
  {
    for i := 0 to |entries|
      invariant forall a, b :: 0 <= a < i && a < b < |entries| ==> !Overlap(entries[a], entries[b])
    {
      for j := i + 1 to |entries|
        invariant forall b :: i < b < j ==> !Overlap(entries[i], entries[b])
      {
        if Overlap(entries[i], entries[j]) {
          return true;
        }
      }
    }
    return false;
  }

  /** Accepts exactly the valid inventories, and otherwise reports the first problem in
      declaration order, overlaps last. */
  method ValidateInventory(root: FsNode, inventory: seq<FingerprintInput>) returns (r: Result<seq<Entry>, Problem>)
    ensures r.Ok? <==> ValidInventory(root, inventory)
    ensures r.Ok? ==> r.value == Entries(inventory)
    ensures r.Err? ==>
      if !root.Directory? then r.error == RootNotDirectory
      else if FineBefore(root, inventory, |inventory|) then r.error == Overlapping
      else exists n :: FailsFirst(root, inventory, n, r.error)
  {
    if !root.Directory? {
      return Err(RootNotDirectory);
    }
    var labels: set<Bytes>, paths: set<RelPath>, entries: seq<Entry> := {}, {}, [];
    for i := 0 to |inventory|
      invariant FineBefore(root, inventory, i) && Seen(inventory[..i], labels, paths)
      invariant entries == Entries(inventory[..i])
    {
      var checked := ValidateInput(root, inventory[..i], labels, paths, inventory[i]);
      if checked.Err? {
        FailureIsFinal(root, inventory, i, checked.error);
        return Err(checked.error);
      }
      FineNext(root, inventory, i);
      OneMoreInput(inventory, i, labels, paths);
      labels := labels + {checked.value.logicalLabel};
      paths := paths + {checked.value.path};
      entries := entries + [checked.value];
    }
    assert inventory[..|inventory|] == inventory;
    var overlap := FindOverlap(entries);
    AllChecked(root, inventory);
    return if overlap then Err(Overlapping) else Ok(entries);
  }

  lemma FineNext(root: FsNode, inventory: seq<FingerprintInput>, n: nat)
    requires n < |inventory| && FineBefore(root, inventory, n) && EntryProblem(root, inventory[..n], inventory[n]).None?
    ensures FineBefore(root, inventory, n + 1)
  {
  }

  lemma OneMoreInput(inventory: seq<FingerprintInput>, n: nat, labels: set<Bytes>, paths: set<RelPath>)
    requires n < |inventory| && Seen(inventory[..n], labels, paths)
    ensures Seen(inventory[..n + 1], labels + {inventory[n].logicalLabel}, paths + {Normalized(inventory[n]).path})
    ensures Entries(inventory[..n + 1]) == Entries(inventory[..n]) + [Normalized(inventory[n])]
  {
    assert inventory[..n + 1] == inventory[..n] + [inventory[n]];
    SeenNext(inventory[..n], labels, paths, inventory[n]);
    EntriesNext(inventory[..n], inventory[n]);
  }

  lemma EntriesNext(earlier: seq<FingerprintInput>, input: FingerprintInput)
    ensures Entries(earlier + [input]) == Entries(earlier) + [Normalized(input)]
  {
  }

  lemma FailureIsFinal(root: FsNode, inventory: seq<FingerprintInput>, n: nat, problem: Problem)
    requires FailsFirst(root, inventory, n, problem)
    ensures !FineBefore(root, inventory, |inventory|) && !ValidInventory(root, inventory)
    ensures exists k :: FailsFirst(root, inventory, k, problem)
  {
    assert EntryProblem(root, inventory[..n], inventory[n]).Some?;
    FineIff(root, inventory);
  }

  lemma AllChecked(root: FsNode, inventory: seq<FingerprintInput>)
    requires root.Directory? && FineBefore(root, inventory, |inventory|)
    ensures var entries := Entries(inventory);
      ValidInventory(root, inventory) <==> !exists i, j :: 0 <= i < j < |entries| && Overlap(entries[i], entries[j])
  {
    FineIff(root, inventory);
    OverlapIff(inventory);
  }

  lemma OverlapIff(inventory: seq<FingerprintInput>)
    requires forall i, j :: 0 <= i < j < |inventory| ==> Normalized(inventory[i]).path != Normalized(inventory[j]).path
    ensures var entries := Entries(inventory);
      Apart(inventory) <==> !exists i, j :: 0 <= i < j < |entries| && Overlap(entries[i], entries[j])
  {
  }

  // ----- Coverage -----

  ghost predicate CoveredTwice(inventory: seq<FingerprintInput>, i: int, j: int, candidate: seq<Component>) {
    0 <= i < j < |inventory| && Covers(inventory[i], candidate) && Covers(inventory[j], candidate)
  }

  lemma PrefixesCompare(a: RelPath, b: RelPath, c: RelPath)
    requires a <= c && b <= c
    ensures a <= b || b <= a
  {
    assert a == c[..|a|] && b == c[..|b|];
  }

  lemma OverlapIsSharing(a: FingerprintInput, b: FingerprintInput)
    requires Normalize(a.path).Some? && Normalize(b.path).Some?
    ensures Normalized(a).path == Normalized(b).path || Overlap(Normalized(a), Normalized(b)) <==>
            exists candidate :: Covers(a, candidate) && Covers(b, candidate)
  {
    var p, q := Normalized(a).path, Normalized(b).path;
    if candidate :| Covers(a, candidate) && Covers(b, candidate) {
      PrefixesCompare(p, q, Normalize(candidate).value);
    }
    if p == q || Overlap(Normalized(a), Normalized(b)) {
      NormalizeNormal(p);
      NormalizeNormal(q);
      assert (Covers(a, Map(AsNormal, p)) && Covers(b, Map(AsNormal, p))) ||
             (Covers(a, Map(AsNormal, q)) && Covers(b, Map(AsNormal, q)));
    }
  }

  /** Among present, distinctly labelled inputs, an inventory is valid exactly when no path is
      covered by two of its entries. */
  lemma ValidIffCoveredOnce(root: FsNode, inventory: seq<FingerprintInput>)
    requires root.Directory? && DistinctLabels(inventory)
    requires forall i :: 0 <= i < |inventory| ==> Present(root, inventory[i])
    ensures ValidInventory(root, inventory) <==> forall i, j, candidate :: !CoveredTwice(inventory, i, j, candidate)
  {
    forall i, j | 0 <= i < j < |inventory|
      ensures Normalized(inventory[i]).path == Normalized(inventory[j]).path
              || Overlap(Normalized(inventory[i]), Normalized(inventory[j]))
              <==> exists candidate :: CoveredTwice(inventory, i, j, candidate)
    {
      assert Present(root, inventory[i]) && Present(root, inventory[j]);
      OverlapIsSharing(inventory[i], inventory[j]);
      if candidate :| Covers(inventory[i], candidate) && Covers(inventory[j], candidate) {
        assert CoveredTwice(inventory, i, j, candidate);
      }
    }
    assert Apart(inventory) <==> forall i, j, candidate :: !CoveredTwice(inventory, i, j, candidate);
  }
}
