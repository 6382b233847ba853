# Maintenance model of the index tools

A Dafny 4.11 model of the parts of this repository whose correctness is hardest to see: the managed
vault namespace and its one-way migration, the merge of index fragments, the license gate's raw-string
scanner, the document chunker, the overlap and coverage rules, and the identity of the contract engine
and its toolchain. `dafny verify dfyconfig.toml` checks all of it.

| Files | What they model |
|---|---|
| `Namespace`, `NamespaceSafety`, `Inspection`, `Manifests`, `Artifacts` | stage / recovery / target renames, failpoints, rollback, optimistic snapshots, ownership, manifests |
| `Merge`, `MergeLaws`, `MergeOrder`, `MergeIdentity`, `IndexDocs`, `Ordering`, `Segments` | collision-driven renaming, rewriting of references, source facts, canonical order |
| `RawStrings`, `Text` | the line-at-a-time scan against one scan of the whole text |
| `Chunker`, `Utf8` | paragraphs, headings, and pieces cut on character boundaries |
| `EdgeSearch`, `ProtocolRoles` | the worklist search and the protocol-role findings |
| `Coverage`, `Doctor` | claims, strictness, the coverage gate, and the doctor's drafts |
| `PairCount` | grouping implementations by body and counting pairs |
| `PinText` | the pin tables' writer and the build script's separate reader |
| `Framing`, `Toolchains`, `EngineSource` | digest framing, chunked reads, and the two directory walks |
| `SourceLookup`, `RustSources` | identifier search, the longest containing package root, and the search for source files |

## How it is modelled

The disk of a namespace is four slots: target, stage, recovery and siblings. Every operation may be
refused, a removal may stop half-way, and somebody else may change the target while the new tree is
being staged. A ghost set collects every state a method passes through, so what holds of that set also
holds of whatever a crash leaves behind; `NamespaceSafety.Run` chains such states into whole runs.

SHA-256 is symbolic: a digest is the value it was taken of, so equal digests mean equal bytes. The JSON
and TOML text layers, case folding, the document check of the merge, the legacy and staged semantic
verifiers, the route gaps, and the bytes behind a link to a file are parameters. Reading a directory
chooses an arbitrary order, and a read from a file an arbitrary number of bytes.

## Where the code differs from what one might expect

For each of these the exact condition is proved, and a lemma gives an input that shows it.

- Renaming can capture: an id that is already spelled `local/<repo>/<id>` may coincide with a renamed
  one (`MergeLaws.RenamingCollidesExactly`, `MergeLaws.CaptureExample`). Such a merge is refused, since the
  document check rejects a repeated id, so no merge that succeeds has two records under one id
  (`MergeIdentity.SuccessKeepsApart`, `MergeIdentity.CaptureExampleRefused`).
- An edge whose end is a renamed draft is not rewritten, whatever its relation, since no typed end is a
  draft and the lookup over all families leaves drafts out (`MergeLaws.DraftEdges`,
  `MergeLaws.DraftExample`).
- With a limit below four bytes, a piece that begins with a character longer than the limit runs on to the
  end of its range (`Chunker.PiecesBounded`, `Chunker.WideCharacterExceeds`).
- A heading path counts headings rather than levels, so after a skipped level a higher heading can be put
  below a lower one (`Chunker.PathIsOutline`, `Chunker.SkippedLevelExample`).
- Writing the pin twice is not always writing it once: a line that ends in two carriage returns loses one
  each time, unless nothing but white space is kept below it (`PinText.WritingTwice`,
  `PinText.WritingTwiceMayDiffer`).
- The identifier search misses isolated occurrences of a needle that overlaps itself right after a character
  outside identifiers, and of no other needle (`SourceLookup.SearchComplete`,
  `SourceLookup.DashesAreMissed`).
- Protocol names with a `|` can share a group with another protocol (`PairCount.PairIdentity`,
  `PairCount.BarsCollide`).
- A file that grows while it is hashed may be fed beyond its recorded length (`Framing.OverfedExactly`,
  `Framing.GrownFileOverfed`).
- The documentation of `toolchain_files` says that any symlink is refused. A `lib` or `bin` that is itself
  a link to a directory is followed; the model follows the code (`Toolchains.LinksRefused`,
  `Toolchains.LinkedLibIsFollowed`).
- The build script's own copy of the engine digest follows a link at a root file or at `src`, where the
  writer of the pin refuses it (`EngineSource.BuildAgrees`, `EngineSource.LinkedSourceIsFollowed`).
- A target that is itself a link to a directory is refused by diff, check and commit, but migrated: the link
  is set aside and removed, and the directory behind it stays where it is (`Namespace.LinkIsOnlyMigrated`).

## Model

| member | source | states |
|---|---|---|
| Artifacts.RejectFolded | src/generated_artifact.rs:45-54 | the table of folded paths rejects a list exactly when two of its paths are equal or agree up to case |
| Artifacts.NewArtifactSet | src/generated_artifact.rs:35-56 | a list is admitted exactly when every path is relative and normalized and no two agree up to case; the result is the same artifacts in path order |
| Manifests.ReaderInvertsWriter | src/index_vault_manifest.rs:143-206 | the reader accepts exactly the JSON objects the writer makes of well-shaped manifests, and returns that manifest |
| Manifests.RoundTrip | src/index_vault_manifest.rs:143-206 | through bytes: a manifest can be written exactly when it is well-shaped, and what is written is read back as it was |
| Manifests.SchemasDisjoint | src/index_vault_manifest.rs:26-65 | no bytes are both a current manifest and one of the first schema, so a migration cannot mistake one for the other |
| Inspection.OwnedFilesExact | src/generated_namespace/filesystem.rs:195-217 | ownership validation passes exactly when the files are the listed ones with the listed digests: none missing, changed or foreign |
| Inspection.SnapshotDetermines | src/generated_namespace.rs:635-653 | two trees that match the same snapshot are the same tree to the last byte, so an optimistic check cannot miss an edit |
| Inspection.VerifiedIsOwned | src/generated_namespace/filesystem.rs:260-280 | a written tree that verifies is recognised later as owned, under the expected manifest and with exactly the expected files |
| Inspection.FreshVerifies | src/generated_namespace/filesystem.rs:238-280 | a tree written from an artifact set verifies exactly when no artifact claims the path of the manifest itself |
| Inspection.WriteStep | src/generated_namespace/filesystem.rs:252-258 | one more artifact adds its node, and can be written exactly when neither it nor an earlier one needs a directory where the other has a file |
| Namespace.ManagedNamespace.Rename | src/generated_namespace.rs:600-626 | a rename moves a whole tree to a free place or over an empty directory, or leaves the disk as it was |
| Namespace.ManagedNamespace.RemoveTree | src/generated_namespace.rs:627-632 | a removal passes only through parts of the old tree; one that is refused half-way leaves a part of it |
| Namespace.ManagedNamespace.WriteStage | src/generated_namespace/filesystem.rs:238-250 | a success stages exactly the artifacts and the manifest, read back; nothing but the stage changes, whatever fails; a healthy file system succeeds exactly when the tree can be stored |
| Namespace.ManagedNamespace.Preflight | src/generated_namespace.rs:406-419 | a transaction holds a snapshot that the target matches; an interrupted namespace is refused |
| Namespace.ManagedNamespace.DiffAgainst | src/generated_namespace.rs:328-356 | the counts are those of the target as it is inspected; an interrupted namespace is refused |
| Namespace.ManagedNamespace.CheckAgainst | src/generated_namespace.rs:358-404 | of an owned tree `check` succeeds exactly when no path is stale and the stored manifest is the expected one, and otherwise names exactly the stale paths |
| Namespace.ManagedNamespace.CommitStaged | src/generated_namespace.rs:600-633 | the swap has no rollback: every state on the way keeps the old tree complete until the new one is live and read back, and an injected failure leaves stage and recovery |
| Namespace.ManagedNamespace.Commit | src/generated_namespace.rs:585-633 | an interrupted namespace or a target that no longer matches is refused with nothing changed; a target edited before the second check is left as edited; every intermediate state is one the protocol allows; success leaves exactly the new tree, no stage, no recovery; a healthy file system with an unedited, matching target succeeds |
| Namespace.ManagedNamespace.MoveIn | src/generated_namespace.rs:219-231 | the two renames with rollback end on exactly one disk for every combination of failpoint and refused rename, and pass only through the three states of an exchange |
| Namespace.ManagedNamespace.FinishMigrated | src/generated_namespace.rs:234-247 | readback, undo and removal end on exactly one disk for every combination of failpoint, refused undo and partial removal |
| Namespace.ManagedNamespace.InstallMigrated | src/generated_namespace.rs:219-247 | until the new tree has been read back the complete old tree is live or set aside in every state, at every failpoint and with every rename or rollback refused |
| Namespace.ManagedNamespace.ReadLegacy | src/generated_namespace.rs:139-195 | a source tree is accepted exactly when its manifest, files, profile, granularity and legacy semantics agree with the request |
| Namespace.ManagedNamespace.ReadSource | src/generated_namespace.rs:111-195 | an interrupted namespace is refused; on a healthy file system a target already at the requested manifest is answered as current; otherwise the first-schema tree, which may stand behind a link, is read with the digests of its files |
| Namespace.ManagedNamespace.StageVerified | src/generated_namespace.rs:196-208 | only the stage changes; success means the complete new tree is staged and passed the semantic verifier |
| Namespace.ManagedNamespace.ConfirmSource | src/generated_namespace.rs:209-218 | a source whose tree changed while the new one was staged ends the migration with the edited tree in place; one that reads the same, directly or through a link, passes |
| Namespace.ManagedNamespace.ReplaceLegacy | src/generated_namespace.rs:196-247 | staging, second reading and installation together pass only through states the protocol allows; whatever is refused from the first rename on, they end on exactly one disk for every failpoint and every set of refusals |
| Namespace.ManagedNamespace.MigrateV1 | src/generated_namespace.rs:98-253 | a whole migration, for every failpoint, refusal, partial removal and concurrent edit, of a directory or of a link to one: interrupted namespaces refused, unfit or edited sources untouched, the old tree complete at target or recovery until the readback, success exactly the requested tree; whatever is refused from the first rename on, the last disk is determined; a repeated migration succeeds with no changes |
| Namespace.FindStale | src/generated_namespace.rs:374-390 | the two passes collect exactly the paths whose digests differ, that are missing or that are foreign |
| Namespace.NoChangesMeansSame | src/generated_namespace.rs:338-356 | `diff` counts zero exactly when no path is stale, that is, when the files are the expected ones |
| Namespace.LinkIsOnlyMigrated | src/generated_namespace.rs:450-470 | a link to a directory is migrated exactly when the directory itself would be, while the inspection behind diff, check and commit refuses every link |
| NamespaceSafety.NothingIsLost | src/generated_namespace.rs:196-247 | in every state of an attempt the tree before it, the tree as edited or the complete new tree is live, or the replaced one is set aside |
| NamespaceSafety.AlwaysClassified | src/index_vault_write_tests.rs:359-470 | a namespace with a live tree is never left outside the three states: live without recovery, stage and recovery without live, live with recovery |
| NamespaceSafety.WrittenTreeIsCurrent | src/generated_namespace.rs:328-404 | after a commit or migration the tree is owned, `diff` counts zero and nothing is stale |
| NamespaceSafety.OwnedTreeCheck | src/generated_namespace.rs:328-404 | of any owned tree `diff` is zero exactly when the stored manifest lists the expected artifacts, and the expected manifest implies nothing stale |
| NamespaceSafety.EditIsNoticed | src/generated_namespace.rs:635-653 | after a preflight, the target matches the snapshot exactly when it has not been edited |
| NamespaceSafety.InterruptedForGood | src/generated_namespace.rs:441-444 | over any run, once a stage or recovery directory is left behind no later attempt changes anything |
| NamespaceSafety.RunSafe | src/generated_namespace.rs:585-633 | over any run of commits and migrations with arbitrary faults one complete tree always survives, live or set aside; it changes only by an edit or by becoming the tree of an attempt; siblings never change |
| Ordering.SortBySorts | src/index_merge.rs:588-618 | the stable sort orders by key and only moves elements about |
| Ordering.SortByCanonical | src/index_merge.rs:588-618 | two arrangements of the same elements sort to the same sequence when keys tell elements apart |
| Segments.IdSegment | src/index_merge.rs:632-659 | the words of the lower-cased text, that is, its maximal runs of segment characters, joined by single dashes, or `fragment` when there are none; a text is kept exactly when it is already a segment |
| Segments.SegmentsAgree | src/index_merge.rs:632-659 | two texts have the same segment exactly when they have the same words |
| Merge.CountCollisions | src/index_merge.rs:212-240 | every counter is the number of records of that family with that id over all fragments |
| Merge.FactStep | src/index_merge/source_facts.rs:3-53 | a further fact is a conflict exactly when an earlier one has its identity and differs; equal copies are dropped |
| Merge.MergeFacts | src/index_merge/source_facts.rs:3-53 | merging facts succeeds exactly when no two with one identity differ, and then keeps the first of each |
| Merge.MergeOne | src/index_merge.rs:145-163 | one fragment is renamed and taken over, or refused exactly when its facts disagree with earlier ones |
| Merge.MergeFragments | src/index_merge.rs:138-169 | the merge loop computes the merged document: renamed records in order of arrival, deduplicated facts, canonical order, final check |
| MergeLaws.RenamingCollidesExactly | src/index_merge.rs:258-345 | two records get the same merged id exactly when they are the same record, or one keeps an id spelled like the other's renamed one |
| MergeLaws.RenamingInjective | src/index_merge.rs:258-345 | with distinct repositories and no id under `local/`, distinct records of a family get distinct merged ids |
| MergeLaws.ReferenceResolves | src/index_merge.rs:347-433 | after renaming, a reference inside a fragment names exactly the copy of the record it named, in whichever fragment it is sought |
| MergeLaws.CrossReference | src/index_merge.rs:331-345 | a reference into another fragment still finds its record exactly when that record was not renamed |
| MergeLaws.RewrittenIds | src/index_merge.rs:347-433 | rewriting a document renames the ids of every family one by one |
| MergeLaws.ReferencesFollow | src/index_merge.rs:347-542 | rewriting maps every reference in a document to the image of its target, in place, and no other |
| MergeLaws.OnlyIdsChange | src/index_merge.rs:347-582 | besides ids and references, rewriting leaves every record of every family as it was and in its place |
| MergeLaws.EdgeKeepsItsEnds | src/index_merge.rs:544-582 | with families disjoint, a rewritten edge keeps its relation and connects the images of both its ends, typed or looked up in every family |
| MergeLaws.DraftEdges | src/index_merge.rs:314-329 | whatever its relation, an edge keeps the id of a draft it ends at, so that end is rewritten correctly exactly when the draft is not renamed |
| MergeLaws.CaptureExample | src/index_merge.rs:331-345 | two fragments share the subject `x` and one also has `local/a/x`: renaming gives two different records that id |
| MergeLaws.DraftExample | src/index_merge.rs:314-329 | two fragments share a draft: an edge of any relation keeps its old id while the draft is renamed |
| MergeOrder.OrderIndependent | src/index_merge.rs:138-169 | for any permutation of the fragments, one order succeeds exactly when the other does, with the same document |
| MergeOrder.CollisionFree | src/index_merge.rs:331-345 | fragments that share and repeat no id are taken over unchanged by the renaming |
| MergeOrder.SortDocTwice | src/index_merge.rs:588-618 | canonical order is a fixpoint: sorting, claim sorting and edge deduplication done twice are done once |
| MergeOrder.MergedIsCanonical | src/index_merge.rs:138-169 | every successful merge is in canonical order with unique ids and facts |
| MergeOrder.MergeIsStable | src/index_merge.rs:138-169 | merging the result of a merge on its own, under any name, returns it unchanged |
| MergeIdentity.UniqueMerge | src/index_merge.rs:138-169 | the merged document repeats no id exactly when no two records of a family, of one fragment or of several, get the same id |
| MergeIdentity.SuccessKeepsApart | src/index_merge.rs:138-169 | in every merge that succeeds, whatever the fragments are called and however they spell their ids, two ids are equal only for the same record |
| MergeIdentity.ReferenceFinds | src/index_merge.rs:138-169 | in every merge that succeeds a reference to one of a fragment's own records names exactly that record |
| MergeIdentity.MergeRepeatsNoneExactly | src/index_merge.rs:138-169 | with distinct repositories the merged document repeats no id exactly when no fragment does and no record has captured another's renamed id |
| MergeIdentity.CaptureRefused | src/index_merge.rs:138-169 | fragments of which one has captured an id of another are refused |
| MergeIdentity.CaptureExampleRefused | src/index_merge.rs:138-169 | so are the fragments of the example |
| RawStrings.RawStringOpenAtOrAfter | src/license_gate.rs:255-283 | skipping to the next opener of a line is what the lexical scan does, and without one the line ends outside raw strings |
| RawStrings.RawStringCloseAtOrAfter | src/license_gate.rs:285-301 | the first quote followed by enough hashes closes the string, and the scan leaves it right after those hashes |
| RawStrings.RawStringStateAfter | src/license_gate.rs:224-253 | the state after a line, for any number of strings opened and closed in it, is the scan's state |
| RawStrings.LinesOutsideRawStrings | src/license_gate.rs:208-222 | the line-by-line fold keeps exactly the lines that start outside every raw string of the whole text |
| RawStrings.FoldStep | src/license_gate.rs:208-253 | carrying the state from one line to the next is scanning the whole text across the newline |
| RawStrings.LandsOnLines | src/license_gate.rs:208-253 | the whole-text scan arrives exactly at the start of every line, and never inside a comment |
| RawStrings.LiteralCloses | src/license_gate.rs:285-301 | a literal with any number of hashes whose content has no quote followed by that many hashes is left exactly at its closing delimiter |
| RawStrings.Classify | src/license_gate.rs:173-190 | a file has the notice, a generated marker or another licence exactly when a real comment line of its head says so, in that order of precedence |
| Utf8.NextBoundary | src/atelier/index_doc.rs:104-111 | from a character boundary of a valid text the next one is exactly one character, one to four bytes, away (section 3 of RFC 3629) |
| Chunker.NextCut | src/atelier/index_doc.rs:103-110 | a piece ends at the last boundary within the limit, or at the end of the range when there is none |
| Chunker.FixedRange | src/atelier/index_doc.rs:95-116 | the pieces partition the range on character boundaries, in order, each reaching as far as the limit allows; the position plus the limit never overflows |
| Chunker.PiecesBounded | src/atelier/index_doc.rs:95-116 | all pieces stay within the limit exactly when no character of the range is longer than it, hence always for a limit of at least four bytes |
| Chunker.WideCharacterExceeds | src/atelier/index_doc.rs:95-116 | a two-byte character cut to a limit of one byte makes a piece beyond the limit |
| Chunker.SegmentsAreLines | src/atelier/index_doc.rs:126-143 | the segments are the stretches between newlines, adjacent, with the byte ranges of their contents |
| Chunker.PushHeading | src/atelier/index_doc.rs:61-65 | popping and pushing keeps the headings above the new level and adds the title |
| Chunker.FlushCloses | src/atelier/index_doc.rs:79-93 | closing the open paragraph, if there is one, leaves exactly one block for every maximal run of body lines so far |
| Chunker.DocBlocks | src/atelier/index_doc.rs:54-77 | the loop yields one block for every maximal run of body lines, with the headings open at its start |
| Chunker.RunsAreParagraphs | src/atelier/index_doc.rs:54-77 | the runs behind the blocks are maximal, apart, in order, and hold every line that is neither blank nor a heading |
| Chunker.BodyLineInBlock | src/atelier/index_doc.rs:54-77 | every line that is neither blank nor a heading lies within some block |
| Chunker.BlocksInText | src/atelier/index_doc.rs:54-77 | blocks are not empty, begin and end on character boundaries, and neither overlap nor touch |
| Chunker.PathIsOutline | src/atelier/index_doc.rs:54-77 | the heading paths are the titles of the enclosing headings at every line exactly while no heading leaves open, by counting levels, one that is not shallower than itself |
| Chunker.SkippedLevelStaysOpen | src/atelier/index_doc.rs:61-65 | after a level-3 heading with nothing above it, a level-2 heading is put below it |
| Chunker.SkippedLevelExample | src/atelier/index_doc.rs:54-77 | in the text of the lines `###a` and `##b` the second heading is put below the first |
| Chunker.F1RecursiveChunks | src/atelier/index_doc.rs:15-44 | the chunks are, block by block, a partition of every block (or of the whole text when there is no block) into pieces on character boundaries, each reaching as far as the limit allows |
| Chunker.ChunksBounded | src/atelier/index_doc.rs:15-44 | no chunk of a text is longer than the limit when no character is, so in particular for every limit of at least four bytes |
| EdgeSearch.HasEdgePath | src/index_overlap.rs:221-241 | true exactly when a path of at least one allowed edge exists; ends on cyclic graphs too |
| EdgeSearch.HasExplicitOwnerRelation | src/index_overlap_benchmark.rs:105-122 | the ownership check's own search meets the same specification for its own relations, so the two agree |
| EdgeSearch.ClosedSetHasNoPath | src/index_overlap.rs:221-241 | a set closed under steps, none of which leads to the goal, lies on no path to it |
| EdgeSearch.ReachesMonotone | src/index_overlap.rs:221-241 | more relations allow more paths |
| ProtocolRoles.LastFeatureCounts | src/index_overlap.rs:124-128 | of several features with one id the table holds the last |
| ProtocolRoles.OwnerProtocolIsFirst | src/index_overlap.rs:158-165 | an owner stands for the protocol of its first anchor that declares a trait |
| ProtocolRoles.NoTraitNoProtocol | src/index_overlap.rs:158-165 | an owner has no protocol exactly when none of its anchors declares a trait |
| ProtocolRoles.Judge | src/index_overlap.rs:177-201 | a member satisfies its role, leaves a gap or is a matter of policy, by implementation and reachability |
| ProtocolRoles.ProtocolRoleFindings | src/index_overlap.rs:123-219 | the counters are the numbers of cases with each verdict, and the findings are those of the gaps, in order |
| ProtocolRoles.ClassificationAddsUp | src/index_overlap.rs:123-219 | configured members are satisfied, gap and policy members together, with one finding for each gap |
| ProtocolRoles.CasesExact | src/index_overlap.rs:147-176 | a member's type is looked at exactly when some role edge from that member leads to the owner of a protocol |
| ProtocolRoles.FindingIsGap | src/index_overlap.rs:201-215 | a finding is raised exactly for the cases that are gaps |
| ProtocolRoles.VerdictsImprove | src/index_overlap.rs:177-201 | more edges and implementations never turn a satisfied member into a gap, nor a gap into a matter of policy |
| ProtocolRoles.PolicyNeverReaches | src/index_overlap.rs:188-200 | a matter of policy reaches its owner neither by delegation nor by any ownership path |
| Coverage.ItemsExact | src/index_rules.rs:427-459 | what can be claimed are exactly the anchors, the surfaces and the runnable, checked specimens, ordered by kind, id and owner |
| Coverage.PushClaims | src/index_rules.rs:506-518 | every listed id gains the owner once for each time it is listed, and no other entry changes |
| Coverage.ClaimCounts | src/index_rules.rs:461-504 | the table holds, for every kind and id, all its claimants in order, and no empty entry |
| Coverage.SplitExact | src/index_rules.rs:97 | the selectors are the pieces between commas, and together make up the text |
| Coverage.SelectorParsed | src/index_rules.rs:98-131 | a category, a colon and a value parse to that entry; `route` alone means all routes |
| Coverage.SpecimenGapsExact | src/index_rules.rs:259-297 | a feature is listed exactly when it is strict or meant for users or frameworks and names no specimen that runs and is checked |
| Coverage.Strictness.Add | src/index_rules.rs:118-131 | a selector adds its value to the set of its category and changes no other |
| Coverage.Strictness.ApplyStrictSelectors | src/index_rules.rs:96-136 | the selectors up to the first faulty one are added, and stay added when a later one is faulty; the result names the first fault |
| Coverage.CheckItems | src/index_rules.rs:220-239 | counts items with one owner and lists unclaimed ones, unless one of these is required |
| Coverage.CheckCoverage | src/index_rules.rs:204-257 | passes exactly when nothing is claimed twice, no required item is unclaimed, no strict feature lacks a runnable specimen and no strict route gap is left; every refusal names a real fault |
| Coverage.StrictnessMonotone | src/index_rules.rs:138-162 | what passes under a stricter setting passes under every weaker one with the identical report, although the specimen gaps read the strictness |
| Coverage.SelectorsOnlyEnlarge | src/index_rules.rs:96-136 | applying selectors only enlarges the strict sets, so coverage that passes with them passed without them, with the same report |
| Doctor.MissingDraftRows | src/index_rules.rs:407-425 | the rows are those of the items nothing claims, ordered by kind name, id and owner |
| Doctor.DoctorAgreesWithGate | src/index_rules.rs:204-257 | when coverage passes, covered and advisory items make up all claimable items, and the doctor's rows are exactly the advisory ones |
| Doctor.AdoptedOwners | src/index_doctor.rs:105-136 | adopting every row as a draft gives an item one more owner for each unclaimed copy of it |
| Doctor.AdoptionDuplicates | src/index_doctor.rs:105-136 | adopting every row leaves no item claimed twice exactly when none was before and no two unclaimed items share kind and id |
| Doctor.AdoptionCloses | src/index_doctor.rs:105-136 | after adopting every row no row is left and nothing is unindexed, however strict the setting |
| PinText.WriteInto | src/simdoc_pin.rs:144-160 | the loop keeps exactly the lines whose nearest header above is neither pin table, joined, trimmed and followed by the table |
| PinText.PinnedToolchainDigest | crates/simdoc/build_identity.rs:183-199 | in every manifest, the value of the first line about the host among the lines whose nearest header above is the digest table, and none if there is no such line |
| PinText.LinesOfWritten | src/simdoc_pin.rs:144-160 | what is written reads back, line by line, as the kept lines, an empty one and the table |
| PinText.OutsideLinesSurvive | src/simdoc_pin.rs:144-160 | every non-blank line outside the two tables is still in its place, up to trailing white space |
| PinText.WritingTwice | src/simdoc_pin.rs:144-160 | writing a second time changes nothing exactly when no line outside the pin tables that still has text below it ends in a carriage return before its line end |
| PinText.WritingTwiceMayDiffer | src/simdoc_pin.rs:144-160 | a line ended by two carriage returns and a newline is written differently the second time |
| PinText.ReadsWhatIsWritten | crates/simdoc/build_identity.rs:183-199 | whatever the manifest held before, the first such value in the written text is the pinned digest of a host listed in the pin, and there is none for any other host |
| PinText.LookupExact | crates/simdoc/build_identity.rs:183-199 | with one digest for each host the reader's answer is that host's digest, and none exactly for hosts that are not pinned |
| Framing.LittleEndianInjective | src/toolchain_identity.rs:96-97 | eight little-endian bytes determine a length below two to the sixty-fourth |
| Framing.NameInjective | src/toolchain_identity.rs:89-95 | the slash-separated name of a path determines its components |
| Framing.FrameInjective | src/toolchain_identity.rs:86-108 | the frame of a file can be read off the front of a stream in one way only |
| Framing.StreamInjective | src/toolchain_identity.rs:80-112 | equal streams come from the same files, byte for byte, in the same order |
| Framing.HashFile | src/toolchain_identity.rs:87-108 | however the reads are cut: a shorter file is refused, a file of the length it was opened with is fed exactly, and of a longer one what its reads returned, by reads of one byte to the capacity that stop once the length is reached |
| Framing.OverfedExactly | src/toolchain_identity.rs:98-107 | a file that grows is sure to be fed no further than its recorded length exactly when it has not grown, the length is zero or the buffer holds one byte |
| Framing.GrownFileOverfed | src/toolchain_identity.rs:98-107 | a file of one byte that has grown to two can be fed whole under a recorded length of one |
| Framing.DigestOf | src/toolchain_identity.rs:80-112 | the digest of stable files is that of the concatenated frames |
| Framing.DigestsDetermineFiles | src/toolchain_identity.rs:80-112 | digests are equal exactly when the lists of files are |
| Toolchains.ListDir | src/toolchain_identity.rs:53-62 | a directory's entries are sorted into files and directories to list, in whatever order it lists them |
| Toolchains.WalkEnds | src/toolchain_identity.rs:51-64 | once nothing is pending, the files found are all ordinary exactly when the tree is acceptable, and then are the identity |
| Toolchains.ToolchainFiles | src/toolchain_identity.rs:46-75 | succeeds exactly when the tools are ordinary files and below `lib` there are only ordinary files and directories; the result is the three tools and every file below `lib`, each once, in order |
| Toolchains.LinksRefused | src/toolchain_identity.rs:40-75 | an accepted tree has only ordinary files and directories at `lib`, at `bin`, at the tools and below `lib` exactly when neither `lib` nor `bin` is a link to a directory |
| Toolchains.LinkedLibIsFollowed | src/toolchain_identity.rs:40-75 | a tree whose `lib` is a link is accepted, and a file behind the link is part of its identity |
| Toolchains.ListingOrderIrrelevant | src/toolchain_identity.rs:46-75 | the list does not depend on the order in which directories list their entries |
| Toolchains.ToolchainDigest | src/toolchain_identity.rs:80-112 | the digest is taken over exactly the identity's files, in order, and refused for any other tree |
| Toolchains.DigestIsIdentity | crates/simdoc/build_identity.rs:113-179 | two toolchain digests are equal exactly when tools and library files are, byte for byte; nothing else below the root counts |
| EngineSource.Collect | src/simdoc_pin.rs:193-217 | the recursive walk succeeds exactly when the directory is a real one and everything below it is an ordinary file or directory, and adds every file below it once |
| EngineSource.SourceDigest | src/simdoc_pin.rs:169-191 | the digest is taken over exactly the four root files and the files below `src`, in path order, and refused for any link or special file |
| EngineSource.SourceDigestIsIdentity | src/simdoc_pin.rs:162-191 | two engine digests are equal exactly when the engines have the same files, byte for byte |
| EngineSource.BuildSourceDigest | crates/simdoc/build_identity.rs:50-97 | the build script takes the digest of the tree with the links at the root files and at `src` followed, and refuses any other link or special file |
| EngineSource.BuildAgrees | crates/simdoc/build_identity.rs:50-97 | what the writer of the pin accepts is exactly what the build script accepts without following a link, and then both read the same tree |
| EngineSource.LinkedSourceIsFollowed | crates/simdoc/build_identity.rs:50-97 | an engine whose `src` is a link is accepted by the build script and refused by the writer of the pin |
| EngineSource.BuildChecksPin | crates/simdoc/build_identity.rs:50-97 | the build script finds the pinned digest exactly when the files it reads are those the writer of the pin read, byte for byte |
| SourceLookup.FindFrom | src/index_source.rs:252 | the next match is the first occurrence at or after a position |
| SourceLookup.SearchComplete | src/index_source.rs:251-259 | matches that do not overlap find every isolated occurrence in every text exactly for needles that do not overlap themselves right after a character outside identifiers |
| SourceLookup.IdentifiersAreFound | src/index_source.rs:251-276 | for a needle of identifier characters the search is true exactly when some occurrence anywhere is isolated |
| SourceLookup.WitnessIsMissed | src/index_source.rs:251-259 | for every other such needle there is a text whose isolated occurrence is skipped |
| SourceLookup.DashesAreMissed | src/index_source.rs:251-259 | two dashes are not found in a text where they stand alone after another dash |
| SourceLookup.PackageFor | src/index_source.rs:112-154 | the running best keeps all and only the containing packages with the longest root: one is the answer, none or several are errors |
| SourceLookup.RootsNest | src/index_source.rs:373-375 | of two roots that contain a path the shorter contains the longer, and roots of one length are the same |
| SourceLookup.TieIsRepeatedRoot | src/index_source.rs:112-154 | a tie means that one root is listed twice |
| SourceLookup.DistinctRootsDecide | src/index_source.rs:112-154 | with distinct roots a name is returned exactly when some root contains the path, and it is that of the one longest root |
| RustSources.FindRustSources | src/index_source.rs:278-305 | the worklist finds every file with the extension `rs` that no excluded directory stands above, each once, in order, whatever order directories list their entries in |
| RustSources.ReachedIsDone | src/index_source.rs:278-305 | once nothing is pending, every directory that can be reached has been listed |
| RustSources.DoneIsReached | src/index_source.rs:278-305 | no directory is listed that is excluded or stands below an excluded one |
| PairCount.SortOut | src/index_overlap_record.rs:38-69 | every relation is either filed under its protocol, in order, or counted under its first cause of exclusion |
| PairCount.EveryRelationCounted | src/index_overlap_record.rs:38-69 | eligible relations and the three causes of exclusion add up to all relations |
| PairCount.Compare | src/index_overlap_record.rs:73-83 | the two nested loops count exactly the pairs with different bodies |
| PairCount.ImplementationShapes | src/index_overlap_record.rs:27-142 | the counters, their causes and the groups are those of the eligible relations; there is one cluster for every fingerprint that two or more of them share, and its members are those relations |
| PairCount.ClustersExact | src/index_overlap_record.rs:93-142 | among the groups, those large enough are one for each shared fingerprint, and together hold every relation that shares its fingerprint with another |
| PairCount.TablePairs | src/index_overlap_record.rs:84-90 | the pairs within a table's lists are the pairs of relations with the same key |
| PairCount.ConcatPairs | src/index_overlap_record.rs:71-91 | regrouping by protocol first does not change which pairs share a fingerprint |
| PairCount.PairIdentity | src/index_overlap_record.rs:71-91 | false positives and pairs within the groups add up to the pairs within the protocols exactly when no group mixes two protocols |
| PairCount.BarsCollide | src/index_overlap_record.rs:84-90 | two protocols, one of whose names has a bar, with bodies of which one starts with the rest of that name, share a group |
| PairCount.NamesWithoutBar | src/index_overlap_record.rs:84-90 | protocol names without a bar never fall into one group |

## Left out

- Namespace.ManagedNamespace.Commit: says nothing of an edit that lands between the second snapshot check and the first rename, a window the code leaves open; `edited` stands for any edit before that check.
- Namespace.ManagedNamespace.WriteStage: an artifact is written whole or not at all; a torn write of a single file is not modelled, and neither are empty subdirectories.
- Namespace.ManagedNamespace.MigrateV1: the semantic verifiers of both schemas are arbitrary predicates over the files read.
- Inspection.FreshVerifies: case folding is an arbitrary function, standing for `to_lowercase`.
- `ManagedNamespace::current_bundle` and the path-only ownership check it uses: a reading of the same inspection.
- Root and namespace name validation, `export`'s skipping of a commit when `diff` counts zero, fsync and permissions.
- Merge.MergeFragments: which of several faults an error names is not modelled, and neither are reading fragments from disk and encoding the result.
- MergeOrder.OrderIndependent: of the external document check it assumes only that a repeated id is rejected.
- MergeLaws.OnlyIdsChange: a feature's canonical `key` is among the fields that renaming leaves as they were; what it is derived from is not modelled.
- RawStrings.Classify: characters stand for bytes; the scanner only tells ASCII bytes apart.
- Chunker.F1RecursiveChunks: a text is valid UTF-8 of at most `isize::MAX` bytes, as every `&str` is; `line_for_offset` is left out.
- Coverage.CheckCoverage: which of several duplicate claims is named first is not modelled, and the route gaps are taken as given, since they do not depend on strictness.
- Doctor.AdoptionCloses: a row becomes the draft that claims its item; the TOML text of the draft and the slug in its id are left out.
- Coverage.Strictness.ApplyStrictSelectors: the strictness read from `features.toml` is left out.
- ProtocolRoles.ProtocolRoleFindings: the wording of a finding is left out.
- PinText.ReadsWhatIsWritten: holds for pins made of plain tokens; a value with a quote, bracket, equals sign or white space is not a digest, commit, channel or host.
- PairCount.ImplementationShapes: looking up the source of each member, and with it the errors of that lookup, is left out, and so are the clusters' ids and their order.
- SourceLookup.PackageFor: the packages of the repository are given; the checks on the resolver and on the relative path before the search are left out.
- RustSources.FindRustSources: the tree is finite, so links that lead round in a circle are not modelled; directories that cannot be read are left out.
- `benchmark_ownership_findings` beyond its path search: a filter over symbol names.
- `tool_identity`, `host_triple`, `pinned_channel`, `require_pinned`, `locate_toolchain`: single-line field readers and process handling.
- Hexadecimal spelling of digests, and lengths beyond 64 bits.
- Command lines, printing, git, child processes, Markdown and card rendering, `index find`, the atelier caches, platform inventories, benchmark records and license packaging rules.
