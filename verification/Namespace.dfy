/**
 The stage / recovery / target protocol of a managed vault namespace: optimistic commits and the
 one-way migration from the first manifest schema.

 Every file-system operation may be refused (`FileSystem.fails`), a removal may stop half-way
 (`FileSystem.survivors`), and the target may be edited by somebody else while the new tree is being
 staged (`edited`). The ghost set `seen` collects every state the disk passes through during an
 attempt, so a property of `seen` also holds of whatever a crash leaves behind.
 */
module Namespace {
  import opened Wrappers
  import opened Manifests
  import opened Artifacts
  import opened Inspection

  datatype Disk = Disk(target: Slot, stage: Slot, recovery: Slot, siblings: map<string, Node>) {
    predicate Interrupted() {
      stage != Absent || recovery != Absent
    }
  }

  datatype FileSystem = FileSystem(fails: Point -> bool, survivors: set<string>)

  predicate Refusal(io: FileSystem, p: Point) {
    io.fails(p)
  }

  ghost predicate Healthy(io: FileSystem) {
    forall p :: !Refusal(io, p)
  }

  /** The operations of an installation, and the removals after it or instead of it. */
  predicate InstallPoint(p: Point) {
    || p == RecoveryRename || p == LiveRename || p == RollbackRename || p == InstalledReadback
    || p == UndoLiveRename || p == UndoRecoveryRename || p == StageRemoval || p == RecoveryRemoval
  }

  /** Nothing is refused before the first tree is moved; anything may be from there on. */
  ghost predicate HealthyUntilInstall(io: FileSystem) {
    forall p :: InstallPoint(p) || !Refusal(io, p)
  }

  function Granted(io: FileSystem, p: Point): Check<Error> {
    Need(!Refusal(io, p), Io(p))
  }

  function Readback(env: Environment, slot: Slot, expected: Manifest, io: FileSystem, p: Point): Check<Error> {
    if Refusal(io, p) then Fail(Io(p)) else VerifyWritten(env, slot, expected)
  }

  function Failpoint(actual: MigrationFault, point: MigrationFault): Check<Error> {
    Need(actual != point, InjectedMigration(point))
  }

  datatype Pending = Pending(expected: Manifest, artifacts: seq<Artifact>, snapshot: Snapshot)
  datatype Diff = Diff(changedArtifacts: nat, unchangedArtifacts: nat)
  datatype Granularity = Compact | Full
  datatype Verdict = Verified | Mismatched | NotVerifiable

  /** A migration request; the two semantic verifiers belong to the vault codec and are parameters. */
  datatype Request = Request(
    legacyProfile: Text,
    seed: Seed,
    artifacts: seq<Artifact>,
    resolvesProfile: bool,
    granularity: Granularity,
    legacyVerifies: map<string, Bytes> -> bool,
    bundlePaths: seq<string>,
    stagedVerdict: map<string, Bytes> -> Verdict)

  // ---- the protocol, as a relation on disks ----

  /** What is left of a tree while it is being removed. */
  ghost predicate Remnant(slot: Slot, whole: Slot) {
    slot == Absent || slot == whole ||
    (slot.Tree? && whole.Tree? && forall k :: k in slot.nodes ==> k in whole.nodes && slot.nodes[k] == whole.nodes[k])
  }

  /** Nothing has been moved: the target is as it was, or as its editor left it. */
  ghost predicate Waiting(b: Disk, kept: Slot, v: Disk) {
    (v.target == b.target || v.target == kept) && v.recovery == Absent
  }

  /** The old tree is set aside and the new one is complete but not live. */
  ghost predicate Between(kept: Slot, next: Slot, v: Disk) {
    v.target == Absent && v.stage == next && v.recovery == kept
  }

  /** The new tree is live; the old one is complete, or on its way out. */
  ghost predicate Installed(kept: Slot, next: Slot, v: Disk) {
    v.target == next && v.stage == Absent && (v.recovery == kept || Remnant(v.recovery, kept))
  }

  /** The three states of two renames: as before, in between, exchanged. */
  ghost predicate Exchanging(b: Disk, v: Disk) {
    || v == b
    || v == Disk(Absent, b.stage, b.target, b.siblings)
    || v == Disk(b.stage, Absent, b.target, b.siblings)
  }

  /** The states of the exchange of two trees. */
  ghost predicate Swapping(b: Disk, kept: Slot, next: Slot, v: Disk) {
    && v.siblings == b.siblings
    && ((v.target == kept && v.recovery == Absent) || Between(kept, next, v) || Installed(kept, next, v))
  }

  /** The states an attempt may pass through: `b` before it, `kept` the tree it replaces, `next` the new one. */
  ghost predicate Step(b: Disk, kept: Slot, next: Slot, v: Disk) {
    && v.siblings == b.siblings
    && if b.Interrupted() then v == b
       else Waiting(b, kept, v) || Between(kept, next, v) || Installed(kept, next, v)
  }

  /** The three states the migration promises to leave a live namespace in. */
  ghost predicate Classified(v: Disk) {
    || (v.target != Absent && v.recovery == Absent)
    || (v.target == Absent && v.stage != Absent && v.recovery != Absent)
    || (v.target != Absent && v.recovery != Absent)
  }

  // ---- legacy trees ----

  function LegacyHeader(codec: JsonCodec, name: Text, req: Request, bytes: Bytes): Result<LegacyManifest, Error> {
    match FromLegacyBytes(codec, bytes)
    case Failure(e) => Failure(BadManifest(e))
    case Success(m) =>
      if m.namespace == name && m.profile == req.legacyProfile && m.indexDigest == req.seed.indexDigest then Success(m)
      else Failure(WrongSource)
  }

  function LegacyForm(req: Request, legacy: LegacyManifest): Check<Error> {
    if !req.resolvesProfile then Fail(UnknownProfile)
    else if legacy.granularity == Plain("compact") then Need(req.granularity == Compact, BadGranularity)
    else if legacy.granularity == Plain("full") then Need(req.granularity == Full, BadGranularity)
    else Fail(BadGranularity)
  }

  function Contents(nodes: map<string, Node>, paths: set<string>): map<string, Bytes> {
    map k | k in paths && k in nodes && nodes[k].Regular? :: nodes[k].bytes
  }

  function BundleFromRoot(slot: Slot, paths: seq<string>): Result<map<string, Bytes>, Error> {
    if slot.Tree? && forall p | p in paths :: p in slot.nodes && slot.nodes[p].Regular? then
      Success(Contents(slot.nodes, set p | p in paths))
    else Failure(NotWritten)
  }

  /** A first-schema tree agrees with its manifest and the request, and means what it should. */
  ghost predicate LegacyContent(env: Environment, name: Text, req: Request, nodes: map<string, Node>, bytes: Bytes) {
    && LegacyHeader(env.codec, name, req, bytes).Success?
    && var legacy := LegacyHeader(env.codec, name, req, bytes).value;
    && CollectDigests(env.fold, nodes) == Success(legacy.artifacts)
    && LegacyForm(req, legacy).Pass?
    && req.legacyVerifies(Contents(nodes, legacy.artifacts.Keys))
  }

  /** Both read as the same tree, whether directly or through a link. */
  ghost predicate SameTree(s: Slot, t: Slot) {
    s.Listable() && t.Listable() && s.nodes == t.nodes
  }

  /** The manifest bytes under a path, read through a link. */
  function ManifestAt(slot: Slot): (r: Result<Bytes, Error>)
    ensures r.Success? ==> slot.Listable()
  {
    match slot
    case Absent => Failure(NoManifest)
    case NotDirectory => Failure(NotATree)
    case _ =>
      var found :- ReadManifest(slot.nodes);
      if found.None? then Failure(NoManifest) else Success(found.value)
  }

  /** What has to hold of a tree before a migration writes anything. */
  ghost predicate LegacySource(env: Environment, name: Text, req: Request, slot: Slot) {
    && ManifestAt(slot).Success?
    && var bytes := ManifestAt(slot).value;
    && FromBytes(env.codec, bytes).Failure? && LegacyContent(env, name, req, slot.nodes, bytes)
  }

  /** A migration reads a target through a link; diff, check and commit refuse it. */
  lemma LinkIsOnlyMigrated(env: Environment, name: Text, req: Request, expected: Manifest, s: Slot, t: Slot)
    requires SameTree(s, t)
    ensures LegacySource(env, name, req, s) <==> LegacySource(env, name, req, t)
    ensures Inspect(env, expected, s).Success? <==> s.Tree? && Inspect(env, expected, Tree(s.nodes)).Success?
  {
  }

  ghost predicate StagedVerifies(req: Request, next: Slot) {
    && BundleFromRoot(next, req.bundlePaths).Success?
    && req.stagedVerdict(BundleFromRoot(next, req.bundlePaths).value) == Verified
  }

  /** The disk an installation ends on once the new tree is live, by the first thing that goes wrong. */
  ghost function FinishOutcome(live: Disk, io: FileSystem, fault: MigrationFault): Disk {
    if Refusal(io, InstalledReadback) then
      if Refusal(io, UndoLiveRename) then live
      else if Refusal(io, UndoRecoveryRename) then Disk(Absent, live.target, live.recovery, live.siblings)
      else Disk(live.recovery, live.target, Absent, live.siblings)
    else if fault == AfterManifestReadback || fault == BeforeRecoveryCleanup then live
    else if Refusal(io, RecoveryRemoval) then live.(recovery := Survivors(live.recovery, io.survivors))
    else live.(recovery := Absent)
  }

  /** The disk the two renames end on. */
  ghost function MoveOutcome(b: Disk, io: FileSystem, fault: MigrationFault): Disk {
    var between := Disk(Absent, b.stage, b.target, b.siblings);
    if fault == BeforeRecoveryRename || Refusal(io, RecoveryRename) then b
    else if fault == AfterRecoveryRename || fault == BeforeLiveRename then between
    else if Refusal(io, LiveRename) then (if Refusal(io, RollbackRename) then between else b)
    else Disk(b.stage, Absent, b.target, b.siblings)
  }

  /** The disk an installation ends on. */
  ghost function InstallOutcome(b: Disk, io: FileSystem, fault: MigrationFault): Disk {
    var moved := MoveOutcome(b, io, fault);
    if moved.stage != Absent || fault == AfterLiveRename || fault == BeforeManifestReadback then moved
    else FinishOutcome(moved, io, fault)
  }

  ghost predicate FailsOnLegacy(fault: MigrationFault) {
    fault == AfterSourceValidation || fault == AfterLegacyVerify || fault == BeforeStageWrite
  }

  ghost predicate FailsAroundManifest(fault: MigrationFault) {
    fault == BeforeManifestRead || fault == AfterManifestRead
  }

  /** Failpoints before anything is written. */
  ghost predicate FailsBeforeStage(fault: MigrationFault) {
    FailsAroundManifest(fault) || FailsOnLegacy(fault)
  }

  /** Failpoints while the staged tree exists but nothing has been moved. */
  ghost predicate FailsWhileStaged(fault: MigrationFault) {
    fault == AfterStageWrite || fault == AfterStageVerify
  }

  /** Failpoints between the move of the old tree and the readback of the new one. */
  ghost predicate FailsBeforeReadback(fault: MigrationFault) {
    || fault == BeforeRecoveryRename || fault == AfterRecoveryRename || fault == BeforeLiveRename
    || fault == AfterLiveRename || fault == BeforeManifestReadback
  }

  ghost predicate FailsAfterReadback(fault: MigrationFault) {
    fault == AfterManifestReadback || fault == BeforeRecoveryCleanup || fault == AfterRecoveryCleanup
  }

  function Survivors(slot: Slot, survivors: set<string>): Slot {
    match slot
    case Tree(nodes) => Tree(map k | k in nodes && k in survivors :: nodes[k])
    case _ => slot
  }

  datatype Spot = AtTarget | AtStage | AtRecovery

  function At(d: Disk, s: Spot): Slot {
    match s
    case AtTarget => d.target
    case AtStage => d.stage
    case AtRecovery => d.recovery
  }

  function Put(d: Disk, s: Spot, slot: Slot): Disk {
    match s
    case AtTarget => d.(target := slot)
    case AtStage => d.(stage := slot)
    case AtRecovery => d.(recovery := slot)
  }

  /** A directory may be renamed to a free name or over an empty directory. */
  predicate Movable(d: Disk, from: Spot, to: Spot) {
    from != to && At(d, from) != Absent && (At(d, to) == Absent || (At(d, from).Tree? && At(d, to) == Tree(map[])))
  }

  /** A namespace already at the requested manifest, or the bytes and digests of a first-schema tree. */
  datatype Source = AlreadyCurrent | Legacy(manifest: Bytes, files: map<string, Text>)

  /** What can be inspected is owned exactly when there is a manifest, and that is a current one. */
  lemma OwnedHasManifest(env: Environment, expected: Manifest, slot: Slot)
    requires Inspect(env, expected, slot).Success?
    ensures Inspect(env, expected, slot).value.Owned? <==> ManifestAt(slot).Success?
    ensures ManifestAt(slot).Success? ==> FromBytes(env.codec, ManifestAt(slot).value).Success?
  {
  }

  /** A second reading of the whole source tree. */
  function ReadAgain(fold: string -> string, slot: Slot): Result<Source, Error> {
    var bytes :- ManifestAt(slot);
    var files :- CollectDigests(fold, slot.nodes);
    Success(Legacy(bytes, files))
  }

  function ChangedPaths(expected: map<string, Text>, files: map<string, Text>): set<string> {
    set p | p in expected && (p !in files || files[p] != expected[p])
  }

  function RemovedPaths(expected: map<string, Text>, files: map<string, Text>): set<string> {
    set p | p in files && p !in expected
  }

  function StalePaths(expected: map<string, Text>, files: map<string, Text>): set<string> {
    ChangedPaths(expected, files) + RemovedPaths(expected, files)
  }

  function CountChanges(expected: map<string, Text>, files: map<string, Text>): Diff {
    var changed := ChangedPaths(expected, files);
    assert |changed| <= |expected.Keys| by { assert expected.Keys == changed + (expected.Keys - changed); }
    Diff(|changed| + |RemovedPaths(expected, files)|, |expected| - |changed|)
  }

  /** One pass over the expected artifacts, one over the files present. */
  method FindStale(expected: map<string, Text>, files: map<string, Text>) returns (stale: set<string>)
    ensures stale == StalePaths(expected, files)
  {
    stale := {};
    var pending := expected.Keys;
    while pending != {}
      invariant pending <= expected.Keys
      invariant stale == ChangedPaths(expected, files) - pending
      decreases pending
    {
      var path :| path in pending;
      if path !in files || files[path] != expected[path] {
        stale := stale + {path};
      }
      pending := pending - {path};
    }
    pending := files.Keys;
    while pending != {}
      invariant pending <= files.Keys
      invariant stale == ChangedPaths(expected, files) + (RemovedPaths(expected, files) - pending)
      decreases pending
    {
      var path :| path in pending;
      if path !in expected {
        stale := stale + {path};
      }
      pending := pending - {path};
    }
  }

  /** `diff` counts zero exactly when no path is stale, which for an owned tree means its manifest lists what is expected. */
  lemma NoChangesMeansSame(expected: map<string, Text>, files: map<string, Text>)
    ensures CountChanges(expected, files).changedArtifacts == 0 <==> StalePaths(expected, files) == {}
    ensures StalePaths(expected, files) == {} <==> expected == files
  {
    if StalePaths(expected, files) == {} {
      forall p ensures p in expected <==> p in files {
        assert p !in ChangedPaths(expected, files) && p !in RemovedPaths(expected, files);
      }
      forall p | p in expected ensures expected[p] == files[p] {
        assert p !in ChangedPaths(expected, files);
      }
      assert expected.Keys == files.Keys;
    }
  }

  class ManagedNamespace {
    const env: Environment
    const name: Text
    var target: Slot
    var stage: Slot
    var recovery: Slot
    var siblings: map<string, Node>
    ghost var seen: set<Disk>

    constructor (env: Environment, name: Text, disk: Disk)
      ensures this.env == env && this.name == name && Now() == disk && Valid()
    {
      this.env, this.name := env, name;
      target, stage, recovery, siblings := disk.target, disk.stage, disk.recovery, disk.siblings;
      seen := {disk};
    }

    function Now(): Disk
      reads this
    {
      Disk(target, stage, recovery, siblings)
    }

    ghost predicate Valid()
      reads this
    {
      Now() in seen
    }

    // ---- primitive operations ----

    method Rename(from: Spot, to: Spot, refused: bool) returns (ok: bool)
      requires Valid()
      modifies this
      ensures Valid() && seen == old(seen) + {Now()}
      ensures ok == (!refused && Movable(old(Now()), from, to))
      ensures Now() == if ok then Put(Put(old(Now()), to, At(old(Now()), from)), from, Absent) else old(Now())
    {
      ok := !refused && Movable(Now(), from, to);
      if ok {
        var d := Put(Put(Now(), to, At(Now(), from)), from, Absent);
        target, stage, recovery := d.target, d.stage, d.recovery;
      }
      seen := seen + {Now()};
    }

    /** Removes a directory file by file; a refused removal leaves the survivors. */
    method RemoveTree(s: Spot, io: FileSystem, p: Point) returns (ok: bool)
      requires Valid() && At(Now(), s).Listable()
      modifies this
      ensures Valid()
      ensures ok == !Refusal(io, p)
      ensures Now() == Put(old(Now()), s, if ok then Absent else Survivors(At(old(Now()), s), io.survivors))
      ensures forall v :: v in seen ==> v in old(seen) ||
                                        exists r :: v == Put(old(Now()), s, r) && Remnant(r, At(old(Now()), s))
    {
      var whole := At(Now(), s);
      var rest := Survivors(whole, io.survivors);
      var d := Put(Now(), s, rest);
      target, stage, recovery := d.target, d.stage, d.recovery;
      seen := seen + {Now()};
      ok := !Refusal(io, p);
      if ok {
        d := Put(Now(), s, Absent);
        target, stage, recovery := d.target, d.stage, d.recovery;
        seen := seen + {Now()};
      }
      assert Remnant(rest, whole) && Remnant(Absent, whole);
    }

    /** Somebody else changes the target. */
    method Edit(edited: Slot)
      requires Valid()
      modifies this
      ensures Valid() && seen == old(seen) + {Now()}
      ensures Now() == old(Now()).(target := edited)
    {
      target := edited;
      seen := seen + {Now()};
    }

    function RejectInterrupted(place: Place, io: FileSystem): Check<Error>
      reads this
    {
      match place
      case Stage =>
        if Refusal(io, StageProbe) then Fail(Io(StageProbe)) else Need(stage == Absent, Interrupted(Stage))
      case Recovery =>
        if Refusal(io, RecoveryProbe) then Fail(Io(RecoveryProbe)) else Need(recovery == Absent, Interrupted(Recovery))
    }

    method WriteArtifact(artifact: Artifact, io: FileSystem, p: Point) returns (r: Result<(), Error>)
      requires Valid() && stage.Tree?
      modifies this
      ensures Valid() && seen == old(seen) + {Now()}
      ensures r.Success? <==> !Refusal(io, p) && !Clash(old(stage).nodes, artifact.path)
      ensures Now() == if r.Failure? then old(Now()) else
                         old(Now()).(stage := Tree(old(stage).nodes[artifact.path := Regular(artifact.bytes)]))
    {
      seen := seen + {Now()};
      :- Granted(io, p);
      :- Need(!Clash(stage.nodes, artifact.path), PathClash(artifact.path));
      stage := Tree(stage.nodes[artifact.path := Regular(artifact.bytes)]);
      seen := seen + {Now()};
      return Success(());
    }

    method WriteArtifacts(artifacts: seq<Artifact>, io: FileSystem) returns (r: Result<(), Error>)
      requires Valid() && stage == Tree(map[])
      modifies this
      ensures Valid() && Now() == old(Now()).(stage := stage)
      ensures forall v :: v in seen ==> v in old(seen) || v == old(Now()).(stage := v.stage)
      ensures r.Success? ==> Fitting(artifacts) && stage == Tree(ArtifactNodes(artifacts))
      ensures HealthyUntilInstall(io) && Fitting(artifacts) ==> r.Success?
    {
      assert ArtifactNodes(artifacts[..0]) == map[] && Fitting(artifacts[..0]);
      hide Clash, ArtifactNodes, Fitting;
      r := Success(());
      for i := 0 to |artifacts|
        invariant Valid() && Now() == old(Now()).(stage := stage)
        invariant r.Success? && stage == Tree(ArtifactNodes(artifacts[..i]))
        invariant Fitting(artifacts[..i])
        invariant forall v :: v in seen ==> v in old(seen) || v == old(Now()).(stage := v.stage)
      {
        WriteStep(artifacts, i);
        r := WriteArtifact(artifacts[i], io, ArtifactWrite(i));
        if r.Failure? { return; }
      }
      assert artifacts[..|artifacts|] == artifacts;
    }

    /** Writes every artifact, then the manifest, and reads the result back. */
    method WriteStage(artifacts: seq<Artifact>, expected: Manifest, io: FileSystem) returns (r: Result<(), Error>)
      requires Valid() && stage == Absent
      modifies this
      ensures Valid() && Now() == old(Now()).(stage := stage)
      ensures forall v :: v in seen ==> v in old(seen) || v == old(Now()).(stage := v.stage)
      ensures r.Success? ==> Storable(env, artifacts, expected) && stage == FreshTree(env, artifacts, expected)
      ensures HealthyUntilInstall(io) && Storable(env, artifacts, expected) ==> r.Success?
    {
      hide Clash, ArtifactNodes, Fitting, Inspect, ToBytes;
      var empty := Tree(map[]);
      :- Granted(io, StageCreate);
      stage := empty;
      seen := seen + {Now()};
      var _ :- WriteArtifacts(artifacts, io);
      if ToBytes(env.codec, expected).Failure? {
        return Failure(BadManifest(ToBytes(env.codec, expected).error));
      }
      :- Granted(io, ManifestWrite);
      :- Need(!Clash(stage.nodes, MANIFEST_FILE), PathClash(MANIFEST_FILE));
      stage := Tree(stage.nodes[MANIFEST_FILE := Regular(ToBytes(env.codec, expected).value)]);
      seen := seen + {Now()};
      :- Readback(env, stage, expected, io, StageReadback);
      return Success(());
    }

    // ---- reading ----

    function InspectCurrent(expected: Manifest, allowStage: bool, io: FileSystem, round: nat): Result<Current, Error>
      reads this
    {
      var staged := if allowStage then Pass else RejectInterrupted(Stage, io);
      :- Granted(io, Root);
      :- staged;
      :- RejectInterrupted(Recovery, io);
      :- Granted(io, TargetRead(round));
      Inspect(env, expected, target)
    }

    function VerifySnapshot(expected: Manifest, snapshot: Snapshot, allowStage: bool, io: FileSystem, round: nat)
      : Result<(), Error>
      reads this
    {
      var current :- InspectCurrent(expected, allowStage, io, round);
      if current.Snapshot() == snapshot then Success(()) else Failure(ChangedSincePreflight)
    }

    method Preflight(seed: Seed, artifacts: seq<Artifact>, io: FileSystem) returns (r: Result<Pending, Error>)
      ensures Now().Interrupted() ==> r.Failure?
      ensures r.Success? ==>
                && r.value.expected == ForArtifacts(name, seed, artifacts) && r.value.artifacts == artifacts
                && Matches(env, r.value.expected, target, r.value.snapshot)
      ensures Healthy(io) && !Now().Interrupted() && Inspect(env, ForArtifacts(name, seed, artifacts), target).Success?
              ==> r.Success?
    {
      var expected := ForArtifacts(name, seed, artifacts);
      var current :- InspectCurrent(expected, false, io, 0);
      return Success(Pending(expected, artifacts, current.Snapshot()));
    }

    method DiffAgainst(seed: Seed, artifacts: seq<Artifact>, io: FileSystem) returns (r: Result<Diff, Error>)
      ensures Now().Interrupted() ==> r.Failure?
      ensures r.Success? ==>
                var expected := ForArtifacts(name, seed, artifacts);
                var current := Inspect(env, expected, target);
                && current.Success?
                && r.value == if current.value.Owned? then CountChanges(expected.artifacts, current.value.files)
                              else Diff(|artifacts|, 0)
      ensures Healthy(io) && !Now().Interrupted() && Inspect(env, ForArtifacts(name, seed, artifacts), target).Success?
              ==> r.Success?
    {
      var expected := ForArtifacts(name, seed, artifacts);
      var current :- InspectCurrent(expected, false, io, 0);
      if !current.Owned? {
        return Success(Diff(|artifacts|, 0));
      }
      return Success(CountChanges(expected.artifacts, current.files));
    }

    /** Collects the stale paths; the namespace is current when there are none and the manifest is the expected one. */
    method CheckAgainst(seed: Seed, artifacts: seq<Artifact>, io: FileSystem) returns (r: Result<nat, Error>)
      ensures Now().Interrupted() ==> r.Failure?
      ensures r.Success? ==>
                var expected := ForArtifacts(name, seed, artifacts);
                var current := Inspect(env, expected, target);
                && current.Success? && current.value.Owned? && current.value.manifest == expected
                && StalePaths(expected.artifacts, current.value.files) == {} && r.value == |current.value.files|
      ensures Healthy(io) && !Now().Interrupted() ==>
                var expected := ForArtifacts(name, seed, artifacts);
                var current := Inspect(env, expected, target);
                (current.Success? && current.value.Owned? ==>
                   if current.value.manifest == expected && StalePaths(expected.artifacts, current.value.files) == {}
                   then r.Success?
                   else r == Failure(Stale(StalePaths(expected.artifacts, current.value.files))))
    {
      var expected := ForArtifacts(name, seed, artifacts);
      var current :- InspectCurrent(expected, false, io, 0);
      if !current.Owned? {
        return Failure(MissingArtifacts);
      }
      var stale := FindStale(expected.artifacts, current.files);
      if current.manifest != expected || stale != {} {
        return Failure(Stale(stale));
      }
      return Success(|current.files|);
    }

    // ---- optimistic commit ----

    /**
     Swaps the staged tree in without any rollback: a refusal leaves stage and recovery for inspection.
     */
    method CommitStaged(expected: Manifest, io: FileSystem, inject: bool) returns (r: Result<(), Error>)
      requires Valid() && recovery == Absent && (target == Absent || target.Tree?)
      requires stage != Absent && VerifyWritten(env, stage, expected).Pass?
      modifies this
      ensures Valid()
      ensures forall v :: v in seen ==> v in old(seen) || Swapping(old(Now()), old(target), old(stage), v)
      ensures r.Success? ==> Now() == Disk(old(stage), Absent, Absent, old(siblings))
      ensures Healthy(io) && !inject ==> r.Success?
      ensures inject || Refusal(io, LiveRename) || Refusal(io, InstalledReadback) ==>
                r.Failure? && forall v :: v in seen ==> v in old(seen) || v.target == old(target) || v.recovery == old(target)
      ensures inject && !Refusal(io, RecoveryRename) ==> Now() == Disk(Absent, old(stage), old(target), old(siblings))
    {
      ghost var b := Now();
      var hadTarget := target != Absent;
      if hadTarget {
        var moved := Rename(AtTarget, AtRecovery, Refusal(io, RecoveryRename));
        :- Need(moved, Io(RecoveryRename));
      }
      :- Need(!inject, InjectedCommit);
      var live := Rename(AtStage, AtTarget, Refusal(io, LiveRename));
      :- Need(live, Io(LiveRename));
      :- Readback(env, target, expected, io, InstalledReadback);
      if hadTarget {
        var removed := RemoveTree(AtRecovery, io, RecoveryRemoval);
        :- Need(removed, Io(RecoveryRemoval));
      }
      return Success(());
    }

    method Commit(tx: Pending, io: FileSystem, inject: bool, edited: Slot) returns (r: Result<(), Error>)
      requires Valid()
      modifies this
      ensures Valid()
      // an interrupted namespace is refused and left alone, however old the transaction
      ensures old(Now()).Interrupted() ==> r.Failure? && seen == {old(Now())} && Now() == old(Now())
      // a target that no longer matches is refused before anything is written
      ensures !Matches(env, tx.expected, old(target), tx.snapshot) ==>
                r.Failure? && seen == {old(Now())} && Now() == old(Now())
      // a target edited while the new tree is staged is left exactly as edited, and an unfit new tree never goes live
      ensures edited != old(target) || !Storable(env, tx.artifacts, tx.expected) ==>
                r.Failure? && forall v :: v in seen ==> v.recovery == old(recovery) && v.target in {old(target), edited}
      // every state passed through is one the protocol allows
      ensures forall v :: v in seen ==> Step(old(Now()), edited, FreshTree(env, tx.artifacts, tx.expected), v)
      ensures r.Success? ==>
                && Now() == Disk(FreshTree(env, tx.artifacts, tx.expected), Absent, Absent, old(siblings))
                && VerifyWritten(env, target, tx.expected).Pass?
      ensures r.Success? ==> edited == old(target) && Matches(env, tx.expected, old(target), tx.snapshot)
      ensures && Healthy(io) && !inject && !old(Now()).Interrupted() && edited == old(target)
              && Matches(env, tx.expected, old(target), tx.snapshot) && Storable(env, tx.artifacts, tx.expected)
              ==> r.Success?
    {
      hide Between, Installed, CollectDigests, FromBytes, ReadManifest, ValidateOwner, OwnedFiles;
      ghost var before := Now();
      seen := {Now()};
      var _ :- VerifySnapshot(tx.expected, tx.snapshot, false, io, 0);
      :- RejectInterrupted(Stage, io);
      :- RejectInterrupted(Recovery, io);
      :- Granted(io, ParentCreate);
      var _ :- WriteStage(tx.artifacts, tx.expected, io);
      Edit(edited);
      var _ :- VerifySnapshot(tx.expected, tx.snapshot, true, io, 1);
      SnapshotDetermines(env, tx.expected, before.target, edited, tx.snapshot);
      r := CommitStaged(tx.expected, io, inject);
    }

    // ---- migration from the first manifest schema ----

    /** Reads the new live tree back, undoing both renames if that fails, and removes the old tree. */
    method FinishMigrated(expected: Manifest, io: FileSystem, fault: MigrationFault) returns (r: Result<(), Error>)
      requires Valid() && stage == Absent && recovery.Listable()
      requires target.Tree? && target != Tree(map[]) && VerifyWritten(env, target, expected).Pass?
      modifies this
      ensures Valid()
      ensures Now() == FinishOutcome(old(Now()), io, fault)
      ensures forall v :: v in seen ==> v in old(seen) || Swapping(old(Now()), old(recovery), old(target), v)
      ensures Healthy(io) && !FailsAfterReadback(fault) ==> r.Success?
      ensures r.Success? ==>
                && !FailsAfterReadback(fault)
                && Now() == old(Now()).(recovery := Absent)
      ensures Refusal(io, InstalledReadback) ==>
                forall v :: v in seen ==> v in old(seen) || v.target == old(recovery) || v.recovery == old(recovery)
    {
      hide Remnant, VerifyWritten, Survivors;
      var readback := Readback(env, target, expected, io, InstalledReadback);
      if readback.Fail? {
        var _ := Rename(AtTarget, AtStage, Refusal(io, UndoLiveRename));
        var _ := Rename(AtRecovery, AtTarget, Refusal(io, UndoRecoveryRename));
        return Failure(readback.error);
      }
      :- Failpoint(fault, AfterManifestReadback);
      :- Failpoint(fault, BeforeRecoveryCleanup);
      var removed := RemoveTree(AtRecovery, io, RecoveryRemoval);
      :- Need(removed, Io(RecoveryRemoval));
      :- Failpoint(fault, AfterRecoveryCleanup);
      return Success(());
    }

    /** Moves the old tree aside and the staged one in, rolling back if the second rename is refused. */
    method MoveIn(io: FileSystem, fault: MigrationFault) returns (r: Result<(), Error>)
      requires Valid() && recovery == Absent && target.Listable() && stage.Tree?
      modifies this
      ensures Valid()
      ensures Now() == MoveOutcome(old(Now()), io, fault)
      ensures forall v :: v in seen ==> v in old(seen) || Exchanging(old(Now()), v)
      ensures r.Success? <==> Now() == Disk(old(stage), Absent, old(target), old(siblings))
    {
      r := Failure(Io(RecoveryRename));
      :- Failpoint(fault, BeforeRecoveryRename);
      var moved := Rename(AtTarget, AtRecovery, Refusal(io, RecoveryRename));
      :- Need(moved, Io(RecoveryRename));
      :- Failpoint(fault, AfterRecoveryRename);
      :- Failpoint(fault, BeforeLiveRename);
      var live := Rename(AtStage, AtTarget, Refusal(io, LiveRename));
      if !live {
        var _ := Rename(AtRecovery, AtTarget, Refusal(io, RollbackRename));
        return Failure(Io(LiveRename));
      }
      return Success(());
    }

    method InstallMigrated(expected: Manifest, io: FileSystem, fault: MigrationFault) returns (r: Result<(), Error>)
      requires Valid() && recovery == Absent && target.Listable()
      requires stage.Tree? && stage != Tree(map[]) && VerifyWritten(env, stage, expected).Pass?
      modifies this
      ensures Valid()
      ensures Now() == InstallOutcome(old(Now()), io, fault)
      ensures forall v :: v in seen ==> v in old(seen) || Swapping(old(Now()), old(target), old(stage), v)
      ensures Healthy(io) && !FailsBeforeReadback(fault) && !FailsAfterReadback(fault) ==> r.Success?
      ensures r.Success? ==>
                && !FailsBeforeReadback(fault) && !FailsAfterReadback(fault)
                && Now() == Disk(old(stage), Absent, Absent, old(siblings))
      // until the readback has passed, the old tree is complete somewhere
      ensures FailsBeforeReadback(fault) || Refusal(io, LiveRename) || Refusal(io, InstalledReadback) ==>
                forall v :: v in seen ==> v in old(seen) || v.target == old(target) || v.recovery == old(target)
    {
      hide Remnant, VerifyWritten, FinishOutcome;
      var _ :- MoveIn(io, fault);
      :- Failpoint(fault, AfterLiveRename);
      :- Failpoint(fault, BeforeManifestReadback);
      r := FinishMigrated(expected, io, fault);
    }

    /** The requested tree can be stored and satisfies the semantic verifier. */
    ghost predicate CanReplace(req: Request) {
      Storable(env, req.artifacts, ForArtifacts(name, req.seed, req.artifacts)) && StagedVerifies(req, Fresh(req))
    }

    /** The complete tree a migration request asks for. */
    ghost function Fresh(req: Request): Slot {
      FreshTree(env, req.artifacts, ForArtifacts(name, req.seed, req.artifacts))
    }

    /** What has to hold of the live tree and of the request for a migration to go through. */
    ghost predicate Migratable(req: Request, slot: Slot) {
      LegacySource(env, name, req, slot) && CanReplace(req)
    }

    ghost function Replaced(req: Request, b: Disk): Disk {
      Disk(Fresh(req), Absent, Absent, b.siblings)
    }

    /** The tree is owned under exactly the requested manifest. */
    ghost predicate IsCurrent(req: Request, slot: Slot) {
      var current := Inspect(env, ForArtifacts(name, req.seed, req.artifacts), slot);
      current.Success? && current.value.Owned? && current.value.manifest == ForArtifacts(name, req.seed, req.artifacts)
    }

    lemma FreshIsCurrent(req: Request)
      requires CanReplace(req)
      ensures IsCurrent(req, Fresh(req))
    {
      hide Storable, FreshTree, VerifyWritten, Inspect;
      var expected := ForArtifacts(name, req.seed, req.artifacts);
      StorableIsTree(env, req.artifacts, expected);
      VerifiedIsOwned(env, Fresh(req), expected);
    }

    /** Checks a first-schema tree against its own manifest, the request and the legacy semantics. */
    method ReadLegacy(req: Request, nodes: map<string, Node>, bytes: Bytes, io: FileSystem, fault: MigrationFault)
      returns (r: Result<Source, Error>)
      ensures r.Success? ==>
                && LegacyContent(env, name, req, nodes, bytes) && !FailsOnLegacy(fault)
                && CollectDigests(env.fold, nodes).Success?
                && r.value == Legacy(bytes, CollectDigests(env.fold, nodes).value)
      ensures HealthyUntilInstall(io) && !FailsOnLegacy(fault) && LegacyContent(env, name, req, nodes, bytes) ==> r.Success?
    {
      hide LegacyHeader, LegacyForm, CollectDigests, OwnedFiles, Contents;
      var legacy :- LegacyHeader(env.codec, name, req, bytes);
      :- Granted(io, SourceRead);
      var files :- CollectDigests(env.fold, nodes);
      OwnedFilesExact(legacy.artifacts, files);
      :- OwnedFiles(legacy.artifacts, files);
      :- Failpoint(fault, AfterSourceValidation);
      :- LegacyForm(req, legacy);
      :- Granted(io, LegacyRead);
      :- Need(req.legacyVerifies(Contents(nodes, legacy.artifacts.Keys)), LegacySemantics);
      :- Failpoint(fault, AfterLegacyVerify);
      :- Failpoint(fault, BeforeStageWrite);
      return Success(Legacy(bytes, files));
    }

    /** Everything a migration reads and checks before it writes. */
    method ReadSource(req: Request, io: FileSystem, fault: MigrationFault) returns (r: Result<Source, Error>)
      ensures Now().Interrupted() ==> r.Failure?
      ensures r.Success? && r.value.AlreadyCurrent? ==> IsCurrent(req, target)
      ensures r.Success? && r.value.Legacy? ==>
                LegacySource(env, name, req, target) && !FailsBeforeStage(fault) && ReadAgain(env.fold, target) == r
      ensures HealthyUntilInstall(io) && !FailsBeforeStage(fault) && !Now().Interrupted() && LegacySource(env, name, req, target)
              ==> r.Success? && r.value.Legacy?
      ensures HealthyUntilInstall(io) && !FailsAroundManifest(fault) && !Now().Interrupted() && IsCurrent(req, target)
              ==> r == Success(AlreadyCurrent)
    {
      hide FromBytes, LegacyContent, CollectDigests, ManifestAt, Inspect, ForArtifacts, FailsOnLegacy;
      if Inspect(env, ForArtifacts(name, req.seed, req.artifacts), target).Success? {
        OwnedHasManifest(env, ForArtifacts(name, req.seed, req.artifacts), target);
      }
      :- Granted(io, Root);
      :- RejectInterrupted(Stage, io);
      :- RejectInterrupted(Recovery, io);
      :- Failpoint(fault, BeforeManifestRead);
      :- Granted(io, ManifestRead);
      var found :- ManifestAt(target);
      :- Failpoint(fault, AfterManifestRead);
      if FromBytes(env.codec, found).Success? {
        var expected := ForArtifacts(name, req.seed, req.artifacts);
        var current :- InspectCurrent(expected, false, io, 0);
        :- Need(current.manifest == expected, Error.AlreadyMigrated);
        return Success(AlreadyCurrent);
      }
      r := ReadLegacy(req, target.nodes, found, io, fault);
    }

    /** Stages the new tree and puts it before the semantic verifier; a mismatch removes it again. */
    method StageVerified(req: Request, io: FileSystem, fault: MigrationFault) returns (r: Result<(), Error>)
      requires Valid() && !Now().Interrupted()
      modifies this
      ensures Valid() && Now() == old(Now()).(stage := stage)
      ensures forall v :: v in seen ==> v in old(seen) || v == old(Now()).(stage := v.stage)
      ensures r.Success? ==> CanReplace(req) && stage == Fresh(req) && !FailsWhileStaged(fault)
      ensures r.Success? ==>
                && stage.Tree? && stage != Tree(map[])
                && VerifyWritten(env, stage, ForArtifacts(name, req.seed, req.artifacts)).Pass?
      ensures HealthyUntilInstall(io) && !FailsWhileStaged(fault) && CanReplace(req) ==> r.Success?
    {
      hide Storable, FreshTree, BundleFromRoot, VerifyWritten, ForArtifacts, Survivors, Remnant;
      var expected := ForArtifacts(name, req.seed, req.artifacts);
      var _ :- WriteStage(req.artifacts, expected, io);
      StorableIsTree(env, req.artifacts, expected);
      :- Failpoint(fault, AfterStageWrite);
      :- Granted(io, BundleRead);
      var staged :- BundleFromRoot(stage, req.bundlePaths);
      var verdict := req.stagedVerdict(staged);
      :- Need(verdict != NotVerifiable, StagedSemantics);
      if verdict == Mismatched {
        var _ := RemoveTree(AtStage, io, StageRemoval);
        return Failure(StagedSemantics);
      }
      :- Failpoint(fault, AfterStageVerify);
      return Success(());
    }

    /** Reads the source again after staging: any change to it ends the migration and discards the stage. */
    method ConfirmSource(source: Source, io: FileSystem, edited: Slot) returns (r: Result<(), Error>)
      requires Valid() && recovery == Absent && stage.Tree? && ReadAgain(env.fold, target) == Success(source)
      modifies this
      ensures Valid() && Now() == old(Now()).(target := edited, stage := stage)
      ensures forall v :: v in seen ==> v in old(seen) || v == old(Now()).(target := edited, stage := v.stage)
      ensures r.Success? ==> SameTree(edited, old(target)) && stage == old(stage)
      ensures HealthyUntilInstall(io) && SameTree(edited, old(target)) ==> r.Success?
    {
      hide CollectDigests, ReadManifest, Survivors, Remnant;
      Edit(edited);
      :- Granted(io, Inspection.Reread);
      var again :- ReadAgain(env.fold, target);
      if again != source {
        var _ := RemoveTree(AtStage, io, StageRemoval);
        return Failure(ChangedDuringMigration);
      }
      SameReadingSameTree(env.fold, old(target).nodes, edited.nodes);
      return Success(());
    }

    /** Stage, confirm, install: the part of a migration that writes. */
    method ReplaceLegacy(req: Request, source: Source, io: FileSystem, fault: MigrationFault, edited: Slot)
      returns (r: Result<(), Error>)
      requires Valid() && !Now().Interrupted() && ReadAgain(env.fold, target) == Success(source)
      modifies this
      ensures Valid()
      ensures forall v :: v in seen ==> v in old(seen) || Step(old(Now()), edited, Fresh(req), v)
      ensures !SameTree(edited, old(target)) || !CanReplace(req) ==>
                r.Failure? && forall v :: v in seen ==> v in old(seen) || (v.recovery == Absent && v.target in {old(target), edited})
      ensures FailsBeforeReadback(fault) || Refusal(io, LiveRename) || Refusal(io, InstalledReadback) ==>
                forall v :: v in seen ==> v in old(seen) || v.target == old(target) || v.target == edited || v.recovery == edited
      ensures r.Success? ==> Now() == Disk(Fresh(req), Absent, Absent, old(siblings)) && CanReplace(req)
      ensures && HealthyUntilInstall(io) && SameTree(edited, old(target)) && CanReplace(req) && !FailsWhileStaged(fault)
              ==> Now() == InstallOutcome(old(Now()).(target := edited, stage := Fresh(req)), io, fault)
                  && (Healthy(io) && fault == NoFault ==> r.Success?)
    {
      hide ReadAgain, VerifyWritten, InstallOutcome, Remnant, CanReplace, Fresh, HealthyUntilInstall, FailsWhileStaged;
      var _ :- StageVerified(req, io, fault);
      var _ :- ConfirmSource(source, io, edited);
      r := InstallMigrated(ForArtifacts(name, req.seed, req.artifacts), io, fault);
    }

    method MigrateV1(req: Request, io: FileSystem, fault: MigrationFault, edited: Slot) returns (r: Result<Diff, Error>)
      requires Valid()
      modifies this
      ensures Valid()
      // an interrupted namespace is refused and left alone
      ensures old(Now()).Interrupted() ==> r.Failure? && seen == {old(Now())} && Now() == old(Now())
      // every state passed through is one the protocol allows
      ensures forall v :: v in seen ==> Step(old(Now()), edited, Fresh(req), v)
      // the old tree is complete somewhere until the new one has been read back
      ensures !old(Now()).Interrupted() && (FailsBeforeReadback(fault) || Refusal(io, LiveRename) || Refusal(io, InstalledReadback)) ==>
                forall v :: v in seen ==> v.target == old(target) || v.target == edited || v.recovery == edited
      // a source edited during the migration is left as edited, and nothing unfit is migrated from or to
      ensures (!SameTree(edited, old(target)) || !Migratable(req, old(target))) && !old(Now()).Interrupted() ==>
                (r.Success? ==> seen == {old(Now())})
                && forall v :: v in seen ==> v.recovery == Absent && v.target in {old(target), edited}
      ensures r.Success? ==>
                IsCurrent(req, target) &&
                ((seen == {old(Now())} && Now() == old(Now()) && r.value == Diff(0, |req.artifacts|)) ||
                 (Now() == Replaced(req, old(Now())) && r.value == Diff(|req.artifacts|, 0)
                  && SameTree(edited, old(target)) && Migratable(req, edited)))
      // migrating what is already current changes nothing and says so
      ensures && HealthyUntilInstall(io) && !old(Now()).Interrupted() && IsCurrent(req, old(target)) && !FailsAroundManifest(fault)
              ==> r == Success(Diff(0, |req.artifacts|)) && Now() == old(Now())
      ensures && HealthyUntilInstall(io) && !old(Now()).Interrupted() && SameTree(edited, old(target)) && Migratable(req, edited)
              && !FailsBeforeStage(fault) && !FailsWhileStaged(fault)
              ==> Now() == InstallOutcome(old(Now()).(target := edited, stage := Fresh(req)), io, fault)
                  && (Healthy(io) && fault == NoFault ==> r.Success?)
    {
      hide LegacySource, ReadAgain, InstallOutcome, CanReplace, Fresh, IsCurrent, Between, Installed, SameTree;
      hide Healthy, HealthyUntilInstall, FailsBeforeReadback, FailsWhileStaged, FailsBeforeStage, FailsAroundManifest;
      seen := {Now()};
      if SameTree(edited, target) {
        LinkIsOnlyMigrated(env, name, req, ForArtifacts(name, req.seed, req.artifacts), edited, target);
      }
      var source :- ReadSource(req, io, fault);
      if source.AlreadyCurrent? {
        return Success(Diff(0, |req.artifacts|));
      }
      var _ :- ReplaceLegacy(req, source, io, fault, edited);
      FreshIsCurrent(req);
      return Success(Diff(|req.artifacts|, 0));
    }
  }
}
