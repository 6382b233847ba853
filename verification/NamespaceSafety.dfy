/** What the namespace protocol guarantees over single attempts and over whole runs. */
module NamespaceSafety {
  import opened Manifests
  import opened Artifacts
  import opened Inspection
  import opened Namespace

  /** The complete tree is live or set aside. */
  ghost predicate Holds(d: Disk, tree: Slot) {
    d.target == tree || d.recovery == tree
  }

  /** In every state of an attempt the replaced tree is complete, or the new one is complete and live. */
  lemma NothingIsLost(b: Disk, kept: Slot, next: Slot, v: Disk)
    requires Step(b, kept, next, v)
    ensures b.Interrupted() ==> v == b
    ensures !b.Interrupted() ==> v.target == b.target || Holds(v, kept) || v.target == next
    ensures v.siblings == b.siblings
  {
  }

  /** A live tree is never left in a state the migration does not classify, whatever fails. */
  lemma AlwaysClassified(b: Disk, kept: Slot, next: Slot, v: Disk)
    requires Step(b, kept, next, v)
    requires !b.Interrupted() && b.target != Absent && kept != Absent && next != Absent
    ensures Classified(v)
    ensures !v.Interrupted() ==> v.target != Absent
  {
  }

  /**
   After a commit or a migration the tree is owned, `diff` counts nothing and `check` passes; and of any
   owned tree `check` passes exactly when `diff` counts nothing and the stored manifest is the expected one.
   */
  lemma WrittenTreeIsCurrent(env: Environment, artifacts: seq<Artifact>, expected: Manifest)
    requires Storable(env, artifacts, expected)
    ensures var current := Inspect(env, expected, FreshTree(env, artifacts, expected));
            && current.Success? && current.value.Owned? && current.value.manifest == expected
            && CountChanges(expected.artifacts, current.value.files) == Diff(0, |expected.artifacts|)
            && StalePaths(expected.artifacts, current.value.files) == {}
  {
    VerifiedIsOwned(env, FreshTree(env, artifacts, expected), expected);
    var files := Inspect(env, expected, FreshTree(env, artifacts, expected)).value.files;
    NoChangesMeansSame(expected.artifacts, files);
    assert ChangedPaths(expected.artifacts, files) == {};
  }

  lemma OwnedTreeCheck(env: Environment, expected: Manifest, slot: Slot)
    requires Inspect(env, expected, slot).Success? && Inspect(env, expected, slot).value.Owned?
    ensures var current := Inspect(env, expected, slot).value;
            && (current.manifest == expected ==> StalePaths(expected.artifacts, current.files) == {})
            && (CountChanges(expected.artifacts, current.files).changedArtifacts == 0 <==>
                current.manifest.artifacts == expected.artifacts)
  {
    var current := Inspect(env, expected, slot).value;
    OwnedFilesExact(current.manifest.artifacts, current.files);
    NoChangesMeansSame(expected.artifacts, current.files);
  }

  /** Two healthy attempts agree with one: a committed tree matches the snapshot of a later preflight only unedited. */
  lemma EditIsNoticed(env: Environment, expected: Manifest, before: Slot, edited: Slot, snapshot: Snapshot)
    requires Matches(env, expected, before, snapshot)
    ensures Matches(env, expected, edited, snapshot) <==> edited == before
  {
    if Matches(env, expected, edited, snapshot) {
      SnapshotDetermines(env, expected, before, edited, snapshot);
    }
  }

  // ---- whole runs ----

  /** One attempt of a run: how the target was edited meanwhile, and the tree it tries to install. */
  datatype Attempt = Attempt(edited: Slot, next: Slot)

  /**
   Any number of commits and migrations, each ending, crashing or being refused in any state it may pass
   through. Preflight, diff and check change nothing and so need no place in a run.
   */
  ghost predicate Run(states: seq<Disk>, attempts: seq<Attempt>) {
    && |states| == |attempts| + 1
    && forall i :: 0 <= i < |attempts| ==> Step(states[i], attempts[i].edited, attempts[i].next, states[i + 1])
  }

  /** Once a stage or recovery directory is left behind, no later attempt changes anything. */
  lemma {:induction false} InterruptedForGood(states: seq<Disk>, attempts: seq<Attempt>, i: nat, j: nat)
    requires Run(states, attempts) && i <= j < |states| && states[i].Interrupted()
    ensures states[j] == states[i]
    decreases j - i
  {
    if i < j {
      assert Step(states[i], attempts[i].edited, attempts[i].next, states[i + 1]);
      InterruptedForGood(states, attempts, i + 1, j);
    }
  }

  /** A tree that may survive attempt `a` given the one that had survived so far. */
  ghost predicate Succeeds(was: Slot, a: Attempt, now: Slot) {
    now == was || now == a.edited || now == a.next
  }

  /**
   Through every run one complete tree survives, live or set aside. It only ever changes by an edit or by
   becoming the complete tree of an attempt, and it is the live one whenever nothing was interrupted.
   */
  lemma {:induction false} RunSafe(states: seq<Disk>, attempts: seq<Attempt>) returns (lineage: seq<Slot>)
    requires Run(states, attempts) && !states[0].Interrupted()
    ensures |lineage| == |states| && lineage[0] == states[0].target
    ensures forall i :: 0 <= i < |states| ==> Holds(states[i], lineage[i]) && states[i].siblings == states[0].siblings
    ensures forall i :: 0 <= i < |states| && !states[i].Interrupted() ==> states[i].target == lineage[i]
    ensures forall i :: 0 <= i < |attempts| ==> Succeeds(lineage[i], attempts[i], lineage[i + 1])
    decreases |attempts|
  {
    if attempts == [] {
      return [states[0].target];
    }
    var n := |attempts| - 1;
    var before := RunSafe(states[..n + 1], attempts[..n]);
    var s, v, a := states[n], states[n + 1], attempts[n];
    assert Step(s, a.edited, a.next, v);
    assert s == states[..n + 1][n];
    var survivor :=
      if s.Interrupted() then before[n]
      else if Waiting(s, a.edited, v) then v.target
      else if Between(a.edited, a.next, v) then a.edited
      else a.next;
    lineage := before + [survivor];
    assert forall i :: 0 <= i < n ==> attempts[..n][i] == attempts[i];
  }
}
