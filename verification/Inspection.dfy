/**
 What a managed namespace looks like on disk and how it is recognised: reading trees, checking
 ownership, taking snapshots.
 */
module Inspection {
  import opened Wrappers
  import opened Manifests
  import opened Artifacts

  /** An entry of a tree, under its slash-separated path: a file, or a symlink or other special entry. */
  datatype Node = Regular(bytes: Bytes) | Irregular

  /** What stands at a path: nothing, a directory with a tree, a link to such a directory, or something else. */
  datatype Slot = Absent | Tree(nodes: map<string, Node>) | Linked(nodes: map<string, Node>) | NotDirectory {
    /** Reading follows a link. */
    predicate Listable() {
      Tree? || Linked?
    }
  }

  /** The JSON library and the case folding of paths. */
  datatype Environment = Environment(codec: JsonCodec, fold: string -> string)

  datatype Place = Stage | Recovery

  datatype Error =
    | Io(point: Point)
    | Interrupted(place: Place)
    | Unowned
    | NotATree
    | ManifestNotAFile
    | NoManifest
    | BadManifest(reason: ManifestError)
    | SpecialEntry
    | FoldCollision
    | WrongOwner
    | MissingFile
    | ChangedFile
    | ForeignFile
    | PathClash(path: string)
    | NotWritten
    | ChangedSincePreflight
    | Stale(paths: set<string>)
    | MissingArtifacts
    | AlreadyMigrated
    | WrongSource
    | UnknownProfile
    | BadGranularity
    | LegacySemantics
    | StagedSemantics
    | ChangedDuringMigration
    | InjectedCommit
    | InjectedMigration(fault: MigrationFault)

  /** Every place where an attempt touches the file system and may be refused by it. */
  datatype Point =
    | Root | StageProbe | RecoveryProbe | ManifestRead | SourceRead | LegacyRead | TargetRead(round: nat)
    | ParentCreate | StageCreate | ArtifactWrite(index: nat) | ManifestWrite | StageReadback | BundleRead | Reread
    | RecoveryRename | LiveRename | RollbackRename | InstalledReadback | UndoLiveRename | UndoRecoveryRename
    | StageRemoval | RecoveryRemoval

  datatype MigrationFault =
    | NoFault | BeforeManifestRead | AfterManifestRead | AfterSourceValidation | AfterLegacyVerify | BeforeStageWrite
    | AfterStageWrite | AfterStageVerify | BeforeRecoveryRename | AfterRecoveryRename | BeforeLiveRename
    | AfterLiveRename | BeforeManifestReadback | AfterManifestReadback | BeforeRecoveryCleanup | AfterRecoveryCleanup

  datatype Current =
    | Missing
    | EmptyDirectory
    | Owned(manifestDigest: Text, manifest: Manifest, files: map<string, Text>)
  {
    function Snapshot(): Snapshot {
      match this
      case Missing => MissingSnapshot
      case EmptyDirectory => EmptySnapshot
      case Owned(digest, _, files) => OwnedSnapshot(digest, files)
    }
  }

  datatype Snapshot = MissingSnapshot | EmptySnapshot | OwnedSnapshot(manifestDigest: Text, files: map<string, Text>)

  // ---- reading a tree ----

  function ReadManifest(nodes: map<string, Node>): Result<Option<Bytes>, Error> {
    if MANIFEST_FILE !in nodes then Success(None)
    else if nodes[MANIFEST_FILE].Irregular? then Failure(ManifestNotAFile)
    else Success(Some(nodes[MANIFEST_FILE].bytes))
  }

  function CollectDigests(fold: string -> string, nodes: map<string, Node>): Result<map<string, Text>, Error> {
    if exists k | k in nodes :: nodes[k].Irregular? then Failure(SpecialEntry)
    else if exists j | j in nodes :: j != MANIFEST_FILE &&
                                     exists k | k in nodes :: k != MANIFEST_FILE && j != k && fold(j) == fold(k) then
      Failure(FoldCollision)
    else Success(map k | k in nodes && k != MANIFEST_FILE :: ByteDigest(nodes[k].bytes))
  }

  /** `validate_owned_files` and `validate_owned_files_v1`: nothing missing, changed or foreign. */
  function OwnedFiles(owned: map<string, Text>, files: map<string, Text>): Check<Error> {
    if exists path | path in owned :: path !in files then Fail(MissingFile)
    else if exists path | path in owned :: files[path] != owned[path] then Fail(ChangedFile)
    else if exists path | path in files :: path !in owned then Fail(ForeignFile)
    else Pass
  }

  lemma OwnedFilesExact(owned: map<string, Text>, files: map<string, Text>)
    ensures OwnedFiles(owned, files).Pass? <==> owned == files
  {
    if OwnedFiles(owned, files).Pass? {
      assert owned.Keys == files.Keys;
    }
  }

  function ValidateOwner(m: Manifest, expected: Manifest): Check<Error> {
    Need(m.namespace == expected.namespace && m.profile == expected.profile && m.granularity == expected.granularity,
         WrongOwner)
  }

  /** The part of `inspect_current_inner` that looks at the target. */
  function Inspect(env: Environment, expected: Manifest, slot: Slot): Result<Current, Error> {
    match slot
    case Absent => Success(Missing)
    case NotDirectory => Failure(NotATree)
    case Linked(_) => Failure(NotATree)
    case Tree(nodes) =>
      var bytes :- ReadManifest(nodes);
      var files :- CollectDigests(env.fold, nodes);
      match bytes
      case None => if files == map[] then Success(EmptyDirectory) else Failure(Unowned)
      case Some(b) =>
        match FromBytes(env.codec, b)
        case Failure(e) => Failure(BadManifest(e))
        case Success(m) =>
          match ValidateOwner(m, expected)
          case Fail(e) => Failure(e)
          case Pass =>
            match OwnedFiles(m.artifacts, files)
            case Fail(e) => Failure(e)
            case Pass => Success(Owned(ByteDigest(b), m, files))
  }

  predicate Matches(env: Environment, expected: Manifest, slot: Slot, snapshot: Snapshot) {
    Inspect(env, expected, slot).Success? && Inspect(env, expected, slot).value.Snapshot() == snapshot
  }

  /** `verify_written_namespace` */
  function VerifyWritten(env: Environment, slot: Slot, expected: Manifest): Check<Error> {
    if !slot.Listable() then Fail(NotWritten)
    else
      match ReadManifest(slot.nodes)
      case Failure(e) => Fail(e)
      case Success(None) => Fail(NotWritten)
      case Success(Some(b)) =>
        match FromBytes(env.codec, b)
        case Failure(e) => Fail(BadManifest(e))
        case Success(m) =>
          if m != expected then Fail(NotWritten)
          else
            match CollectDigests(env.fold, slot.nodes)
            case Failure(e) => Fail(e)
            case Success(files) => OwnedFiles(m.artifacts, files)
  }

  // ---- writing a tree ----

  /** The file `a` would have to be a directory for `b` to exist. */
  predicate Under(a: string, b: string) {
    |a| < |b| && b[..|a|] == a && b[|a|] == '/'
  }

  predicate Clash(nodes: map<string, Node>, path: string) {
    exists k | k in nodes :: Under(k, path) || Under(path, k)
  }

  function ArtifactNodes(artifacts: seq<Artifact>): map<string, Node> {
    if artifacts == [] then map[]
    else
      var last := artifacts[|artifacts| - 1];
      ArtifactNodes(artifacts[..|artifacts| - 1])[last.path := Regular(last.bytes)]
  }

  /** The complete new tree: every artifact, and the manifest. */
  function FreshTree(env: Environment, artifacts: seq<Artifact>, expected: Manifest): Slot {
    match ToBytes(env.codec, expected)
    case Success(bytes) => Tree(ArtifactNodes(artifacts)[MANIFEST_FILE := Regular(bytes)])
    case Failure(_) => Absent
  }

  /** No artifact sits where an earlier one needs a directory, or the other way round. */
  ghost predicate Fitting(artifacts: seq<Artifact>) {
    artifacts == [] ||
    (var init := artifacts[..|artifacts| - 1];
     Fitting(init) && !Clash(ArtifactNodes(init), artifacts[|artifacts| - 1].path))
  }

  lemma {:induction false} FittingPrefix(artifacts: seq<Artifact>, i: nat)
    requires i <= |artifacts| && Fitting(artifacts)
    ensures Fitting(artifacts[..i])
    decreases |artifacts|
  {
    if i < |artifacts| {
      FittingPrefix(artifacts[..|artifacts| - 1], i);
      assert artifacts[..|artifacts| - 1][..i] == artifacts[..i];
    } else {
      assert artifacts[..i] == artifacts;
    }
  }

  /** One more artifact: its node is added, and it fits if nothing is in its way. */
  lemma WriteStep(artifacts: seq<Artifact>, i: nat)
    requires i < |artifacts|
    ensures ArtifactNodes(artifacts[..i + 1]) ==
            ArtifactNodes(artifacts[..i])[artifacts[i].path := Regular(artifacts[i].bytes)]
    ensures Fitting(artifacts[..i + 1]) <==>
            Fitting(artifacts[..i]) && !Clash(ArtifactNodes(artifacts[..i]), artifacts[i].path)
    ensures Fitting(artifacts) ==> Fitting(artifacts[..i + 1])
  {
    assert artifacts[..i + 1][..i] == artifacts[..i];
    if Fitting(artifacts) { FittingPrefix(artifacts, i + 1); }
  }

  /** A healthy file system takes these artifacts and this manifest. */
  ghost predicate Storable(env: Environment, artifacts: seq<Artifact>, expected: Manifest) {
    && ToBytes(env.codec, expected).Success?
    && Fitting(artifacts)
    && !Clash(ArtifactNodes(artifacts), MANIFEST_FILE)
    && VerifyWritten(env, FreshTree(env, artifacts, expected), expected).Pass?
  }

  // ---- facts ----

  lemma StorableIsTree(env: Environment, artifacts: seq<Artifact>, expected: Manifest)
    requires Storable(env, artifacts, expected)
    ensures var next := FreshTree(env, artifacts, expected);
            next.Tree? && next != Tree(map[]) && VerifyWritten(env, next, expected).Pass?
  {
    assert MANIFEST_FILE in FreshTree(env, artifacts, expected).nodes;
  }

  /** A recognised tree is determined by its snapshot, down to the last byte. */
  lemma SnapshotDetermines(env: Environment, expected: Manifest, s: Slot, t: Slot, snapshot: Snapshot)
    requires Matches(env, expected, s, snapshot) && Matches(env, expected, t, snapshot)
    ensures s == t
  {
    if s.Tree? && t.Tree? {
      SameReadingSameTree(env.fold, s.nodes, t.nodes);
    }
  }

  lemma SameReadingSameTree(fold: string -> string, s: map<string, Node>, t: map<string, Node>)
    requires CollectDigests(fold, s).Success? && CollectDigests(fold, s) == CollectDigests(fold, t)
    requires ReadManifest(s) == ReadManifest(t)
    ensures s == t
  {
    var files := CollectDigests(fold, s).value;
    forall k ensures k in s <==> k in t
    {
      assert k in files <==> k in s && k != MANIFEST_FILE;
      assert k in files <==> k in t && k != MANIFEST_FILE;
    }
    forall k | k in s ensures s[k] == t[k] {
      if k != MANIFEST_FILE {
        assert files[k] == ByteDigest(s[k].bytes) == ByteDigest(t[k].bytes);
      }
    }
    assert s.Keys == t.Keys;
  }

  /** A written and verified tree is recognised as owned, with exactly the expected files. */
  lemma VerifiedIsOwned(env: Environment, slot: Slot, expected: Manifest)
    requires slot.Tree? && VerifyWritten(env, slot, expected).Pass?
    ensures Inspect(env, expected, slot).Success?
    ensures var current := Inspect(env, expected, slot).value;
            current.Owned? && current.manifest == expected && current.files == expected.artifacts
  {
    OwnedFilesExact(expected.artifacts, CollectDigests(env.fold, slot.nodes).value);
  }

  lemma {:induction false} ArtifactNodesDigests(artifacts: seq<Artifact>, k: string)
    ensures k in ArtifactNodes(artifacts) <==> k in Digests(artifacts)
    ensures k in ArtifactNodes(artifacts) ==>
              && ArtifactNodes(artifacts)[k].Regular?
              && Digests(artifacts)[k] == ByteDigest(ArtifactNodes(artifacts)[k].bytes)
  {
    if artifacts != [] {
      ArtifactNodesDigests(artifacts[..|artifacts| - 1], k);
    }
  }

  ghost predicate HasPath(artifacts: seq<Artifact>, path: string) {
    exists i :: 0 <= i < |artifacts| && artifacts[i].path == path
  }

  lemma {:induction false} DigestKeys(artifacts: seq<Artifact>, k: string)
    ensures k in Digests(artifacts) <==> HasPath(artifacts, k)
  {
    if artifacts != [] {
      var init, last := artifacts[..|artifacts| - 1], artifacts[|artifacts| - 1];
      DigestKeys(init, k);
      assert k in Digests(artifacts) <==> k == last.path || k in Digests(init);
      if i :| 0 <= i < |init| && init[i].path == k {
        assert artifacts[i].path == k;
      }
      if i :| 0 <= i < |artifacts| && artifacts[i].path == k && k != last.path {
        assert init[i].path == k;
      }
    }
  }

  lemma FreshFolds(fold: string -> string, artifacts: seq<Artifact>, nodes: map<string, Node>, bytes: Bytes)
    requires FoldedDistinct(fold, artifacts)
    requires nodes == ArtifactNodes(artifacts)[MANIFEST_FILE := Regular(bytes)]
    ensures CollectDigests(fold, nodes).Success?
  {
    forall k | k in nodes ensures nodes[k].Regular? {
      ArtifactNodesDigests(artifacts, k);
    }
    forall j, k | j in nodes && k in nodes && j != MANIFEST_FILE && k != MANIFEST_FILE && j != k
      ensures fold(j) != fold(k)
    {
      ArtifactNodesDigests(artifacts, j);
      ArtifactNodesDigests(artifacts, k);
      DigestKeys(artifacts, j);
      DigestKeys(artifacts, k);
      var m :| 0 <= m < |artifacts| && artifacts[m].path == j;
      var n :| 0 <= n < |artifacts| && artifacts[n].path == k;
    }
  }

  lemma FreshFiles(fold: string -> string, artifacts: seq<Artifact>, nodes: map<string, Node>, bytes: Bytes)
    requires FoldedDistinct(fold, artifacts)
    requires nodes == ArtifactNodes(artifacts)[MANIFEST_FILE := Regular(bytes)]
    ensures CollectDigests(fold, nodes) == Success(Digests(artifacts) - {MANIFEST_FILE})
  {
    FreshFolds(fold, artifacts, nodes, bytes);
    var files := CollectDigests(fold, nodes).value;
    var wanted := Digests(artifacts) - {MANIFEST_FILE};
    forall k ensures (k in files <==> k in wanted) && (k in files ==> files[k] == wanted[k]) {
      ArtifactNodesDigests(artifacts, k);
    }
    assert files == wanted;
  }

  /** A tree written from an artifact set verifies exactly when no artifact claims the manifest's own path. */
  lemma FreshVerifies(env: Environment, namespace: Text, seed: Seed, artifacts: seq<Artifact>)
    requires env.codec.Lawful() && IsArtifactSet(env.fold, artifacts)
    requires ValidateShape(ForArtifacts(namespace, seed, artifacts)).Pass?
    ensures var expected := ForArtifacts(namespace, seed, artifacts);
            VerifyWritten(env, FreshTree(env, artifacts, expected), expected).Pass? <==>
            !HasPath(artifacts, MANIFEST_FILE)
  {
    var expected := ForArtifacts(namespace, seed, artifacts);
    RoundTrip(env.codec, expected);
    var bytes := ToBytes(env.codec, expected).value;
    FreshFiles(env.fold, artifacts, FreshTree(env, artifacts, expected).nodes, bytes);
    OwnedFilesExact(expected.artifacts, Digests(artifacts) - {MANIFEST_FILE});
    DigestKeys(artifacts, MANIFEST_FILE);
    assert Digests(artifacts) == Digests(artifacts) - {MANIFEST_FILE} <==> MANIFEST_FILE !in Digests(artifacts);
  }
}
