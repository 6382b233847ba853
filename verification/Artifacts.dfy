/** Generated artifacts and the manifest computed from them. */
module Artifacts {
  import opened Wrappers
  import opened Ordering
  import opened Manifests

  datatype Artifact = Artifact(path: string, bytes: Bytes)

  datatype PathError = Empty | NotRelative | NotNormalized | Traverses | Duplicate(path: string) | CaseFold(a: string, b: string)

  function ByPath(a: Artifact): Key {
    [a.path]
  }

  /** The `/`-separated parts of a path. */
  function Parts(text: string): (parts: seq<string>)
    ensures parts != []
  {
    if text == [] then [""]
    else
      var rest := Parts(text[1..]);
      if text[0] == '/' then [""] + rest else [[text[0]] + rest[0]] + rest[1..]
  }

  predicate IsAsciiLetter(c: char) {
    'a' <= c <= 'z' || 'A' <= c <= 'Z'
  }

  function ValidateRelativePath(text: string): Check<PathError> {
    if text == "" then Fail(Empty)
    else if text[0] == '/' || (|text| >= 2 && IsAsciiLetter(text[0]) && text[1] == ':') then Fail(NotRelative)
    else if '\\' in text then Fail(NotNormalized)
    else if "" in Parts(text) || "." in Parts(text) then Fail(NotNormalized)
    else if ".." in Parts(text) then Fail(Traverses)
    else Pass
  }

  ghost predicate FoldedDistinct(fold: string -> string, artifacts: seq<Artifact>) {
    forall i, j :: 0 <= i < j < |artifacts| ==> fold(artifacts[i].path) != fold(artifacts[j].path)
  }

  /** What an artifact set promises: ordered by path, every path relative, no two alike up to case. */
  ghost predicate IsArtifactSet(fold: string -> string, artifacts: seq<Artifact>) {
    && Sorted(artifacts, ByPath)
    && (forall a :: a in artifacts ==> ValidateRelativePath(a.path).Pass?)
    && FoldedDistinct(fold, artifacts)
  }

  lemma FoldedDistinctPermutes(fold: string -> string, s: seq<Artifact>, t: seq<Artifact>)
    requires multiset(s) == multiset(t) && FoldedDistinct(fold, s)
    ensures FoldedDistinct(fold, t)
  {
    UniquePermutes(s, t, (a: Artifact) => [fold(a.path)]);
  }

  /** Walks the paths through a table of folded spellings. */
  method RejectFolded(fold: string -> string, artifacts: seq<Artifact>) returns (c: Check<PathError>)
    ensures c.Pass? <==> FoldedDistinct(fold, artifacts)
  {
    var folded: map<string, string> := map[];
    for i := 0 to |artifacts|
      invariant forall k :: 0 <= k < i ==> fold(artifacts[k].path) in folded
      invariant forall f :: f in folded ==> exists k :: 0 <= k < i && f == fold(artifacts[k].path)
      invariant forall j, k :: 0 <= j < k < i ==> fold(artifacts[j].path) != fold(artifacts[k].path)
    {
      var path := artifacts[i].path;
      if fold(path) in folded {
        var previous := folded[fold(path)];
        return Fail(if previous == path then Duplicate(path) else CaseFold(previous, path));
      }
      folded := folded[fold(path) := path];
    }
    return Pass;
  }

  /** Sorts the artifacts and admits them unless a path is unfit or two paths agree up to case. */
  method NewArtifactSet(fold: string -> string, artifacts: seq<Artifact>) returns (r: Result<seq<Artifact>, PathError>)
    ensures r.Success? <==>
              (forall a :: a in artifacts ==> ValidateRelativePath(a.path).Pass?) && FoldedDistinct(fold, artifacts)
    ensures r.Success? ==> IsArtifactSet(fold, r.value) && multiset(r.value) == multiset(artifacts)
  {
    for i := 0 to |artifacts|
      invariant forall k :: 0 <= k < i ==> ValidateRelativePath(artifacts[k].path).Pass?
    {
      :- ValidateRelativePath(artifacts[i].path);
    }
    var sorted := SortBy(artifacts, ByPath);
    SortBySorts(artifacts, ByPath);
    if FoldedDistinct(fold, artifacts) { FoldedDistinctPermutes(fold, artifacts, sorted); }
    if FoldedDistinct(fold, sorted) { FoldedDistinctPermutes(fold, sorted, artifacts); }
    :- RejectFolded(fold, sorted);
    forall a | a in sorted ensures ValidateRelativePath(a.path).Pass? {
      InMultiset(sorted, artifacts, a);
    }
    return Success(sorted);
  }

  datatype Seed = Seed(
    profile: Text,
    granularity: Text,
    indexDigest: Text,
    projectionDigest: Text,
    bundleRoot: Text,
    coverage: map<string, U64>)

  /** Path to digest, in artifact order; a repeated path keeps its last digest. */
  function Digests(artifacts: seq<Artifact>): map<string, Text> {
    if artifacts == [] then map[]
    else
      var last := artifacts[|artifacts| - 1];
      Digests(artifacts[..|artifacts| - 1])[last.path := ByteDigest(last.bytes)]
  }

  function ForArtifacts(namespace: Text, seed: Seed, artifacts: seq<Artifact>): Manifest {
    Manifest.Manifest(namespace, seed.profile, seed.granularity, seed.indexDigest, CODEC_ID, seed.projectionDigest,
                      seed.bundleRoot, seed.coverage, Digests(artifacts))
  }
}
