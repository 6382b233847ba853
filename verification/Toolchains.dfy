/** Which files make up a toolchain's identity, and the digest over them. */
module Toolchains {
  import opened Wrappers
  import opened Ordering
  import opened Framing

  /** What a directory entry is; a link to a directory can be listed, but is not a directory itself. */
  datatype Entry = Ordinary(content: Bytes) | Directory | LinkToDirectory | Other

  /** Everything below a root, by path. */
  type Tree = map<Path, Entry>

  datatype WalkError = Unreadable(dir: Path) | NotOrdinary(path: Path)

  const TOOLS: seq<Path> := [["bin", "cargo"], ["bin", "rustc"], ["bin", "rustdoc"]]
  const LIB: Path := ["lib"]
  const BIN: Path := ["bin"]

  function Parent(p: Path): Path
    requires p != []
  {
    p[..|p| - 1]
  }

  predicate Listable(tree: Tree, dir: Path) {
    dir in tree && (tree[dir].Directory? || tree[dir].LinkToDirectory?)
  }

  /** Every entry has proper names and stands in something that can be listed. */
  ghost predicate WellFormed(tree: Tree) {
    forall p :: p in tree ==> IsPath(p) && (|p| > 1 ==> Listable(tree, Parent(p)))
  }

  predicate IsChild(dir: Path, p: Path) {
    p != [] && Parent(p) == dir
  }

  function Children(tree: Tree, dir: Path): set<Path> {
    set p | p in tree && IsChild(dir, p)
  }

  function ReadDir(tree: Tree, dir: Path): Result<set<Path>, WalkError> {
    if Listable(tree, dir) then Success(Children(tree, dir)) else Failure(Unreadable(dir))
  }

  // ---- what the walk should find ----

  predicate BelowLib(p: Path) {
    |p| >= 2 && p[0] == "lib"
  }

  /** The files that define the identity: the three tools and every file below `lib`. */
  ghost function Identity(tree: Tree): set<Path> {
    (set t | t in TOOLS) + set p | p in tree && BelowLib(p) && tree[p].Ordinary?
  }

  predicate IsOrdinary(tree: Tree, p: Path) {
    p in tree && tree[p].Ordinary?
  }

  /** The tools are ordinary files, and below `lib` there are only ordinary files and directories. */
  ghost predicate Acceptable(tree: Tree) {
    && Listable(tree, LIB)
    && (forall t :: t in TOOLS ==> IsOrdinary(tree, t))
    && (forall p :: p in tree && BelowLib(p) ==> tree[p].Ordinary? || tree[p].Directory?)
  }

  // ---- the walk ----

  ghost function FilesAmong(tree: Tree, s: set<Path>): set<Path> {
    set p | p in s && p in tree && !tree[p].Directory?
  }

  ghost function DirsAmong(tree: Tree, s: set<Path>): set<Path> {
    set p | p in s && p in tree && tree[p].Directory?
  }

  ghost function ChildrenOf(tree: Tree, done: set<Path>): set<Path> {
    set p | p in tree && p != [] && Parent(p) in done
  }

  /** The files found by listing the directories `done`. */
  ghost function FilesIn(tree: Tree, done: set<Path>): set<Path> {
    FilesAmong(tree, ChildrenOf(tree, done))
  }

  /** `lib` and the directories found by listing the directories `done`. */
  ghost function DirsIn(tree: Tree, done: set<Path>): set<Path> {
    {LIB} + DirsAmong(tree, ChildrenOf(tree, done))
  }

  /** The files of the directories listed so far, and the directories found but not listed yet. */
  ghost predicate Walking(tree: Tree, files: seq<Path>, pending: seq<Path>, done: set<Path>) {
    && multiset(files) == multiset(TOOLS) + multiset(FilesIn(tree, done))
    && multiset(pending) == multiset(DirsIn(tree, done) - done)
    && InLib(tree, done)
  }

  ghost predicate InLib(tree: Tree, done: set<Path>) {
    done <= DirsIn(tree, done) && forall d :: d in done ==> d == LIB || BelowLib(d)
  }

  lemma WalkStarts(tree: Tree)
    ensures Walking(tree, TOOLS, [LIB], {})
  {
    assert FilesIn(tree, {}) == {} && DirsIn(tree, {}) - {} == {LIB};
  }

  lemma AmongMore(tree: Tree, seen: set<Path>, p: Path)
    requires p in tree && p !in seen
    ensures multiset(FilesAmong(tree, seen + {p})) ==
            multiset(FilesAmong(tree, seen)) + if tree[p].Directory? then multiset{} else multiset{p}
    ensures multiset(DirsAmong(tree, seen + {p})) ==
            multiset(DirsAmong(tree, seen)) + if tree[p].Directory? then multiset{p} else multiset{}
  {
    if tree[p].Directory? {
      assert DirsAmong(tree, seen + {p}) == DirsAmong(tree, seen) + {p};
      assert FilesAmong(tree, seen + {p}) == FilesAmong(tree, seen);
    } else {
      assert DirsAmong(tree, seen + {p}) == DirsAmong(tree, seen);
      assert FilesAmong(tree, seen + {p}) == FilesAmong(tree, seen) + {p};
    }
  }

  lemma NoneSorted(tree: Tree, files: seq<Path>, pending: seq<Path>)
    ensures Sorting(tree, {}, files, pending, files, pending)
  {
    assert FilesAmong(tree, {}) == {} && DirsAmong(tree, {}) == {};
  }

  /** The entries `seen` have been sorted into files and directories to list later. */
  ghost predicate Sorting(tree: Tree, seen: set<Path>, files: seq<Path>, pending: seq<Path>, moreFiles: seq<Path>,
                          morePending: seq<Path>) {
    && multiset(moreFiles) == multiset(files) + multiset(FilesAmong(tree, seen))
    && multiset(morePending) == multiset(pending) + multiset(DirsAmong(tree, seen))
  }

  /** A directory is to be listed later; anything else counts as a file for now. */
  method Sort(tree: Tree, ghost seen: set<Path>, p: Path, ghost files: seq<Path>, ghost pending: seq<Path>,
              oldFiles: seq<Path>, oldPending: seq<Path>) returns (moreFiles: seq<Path>, morePending: seq<Path>)
    requires p in tree && p !in seen && Sorting(tree, seen, files, pending, oldFiles, oldPending)
    ensures Sorting(tree, seen + {p}, files, pending, moreFiles, morePending)
  {
    hide FilesAmong, DirsAmong;
    AmongMore(tree, seen, p);
    moreFiles, morePending := oldFiles, oldPending;
    if tree[p].Directory? {
      morePending := morePending + [p];
    } else {
      moreFiles := moreFiles + [p];
    }
  }

  method ListDir(tree: Tree, listing: set<Path>, files: seq<Path>, pending: seq<Path>)
    returns (moreFiles: seq<Path>, morePending: seq<Path>)
    requires forall p :: p in listing ==> p in tree
    ensures Sorting(tree, listing, files, pending, moreFiles, morePending)
  {
    hide Sorting;
    moreFiles, morePending := files, pending;
    var rest := listing;
    ghost var seen: set<Path> := {};
    NoneSorted(tree, files, pending);
    while rest != {}
      invariant seen + rest == listing && seen !! rest
      invariant Sorting(tree, seen, files, pending, moreFiles, morePending)
    {
      var p :| p in rest;  // a directory lists its entries in any order
      moreFiles, morePending := Sort(tree, seen, p, files, pending, moreFiles, morePending);
      rest, seen := rest - {p}, seen + {p};
    }
    assert seen == listing;
  }

  lemma DisjointSum<T>(a: set<T>, b: set<T>)
    requires a !! b
    ensures multiset(a + b) == multiset(a) + multiset(b)
  {
  }

  lemma PopLast<T>(s: seq<T>)
    requires s != []
    ensures multiset(s) == multiset(s[..|s| - 1]) + multiset{s[|s| - 1]}
    ensures s[|s| - 1] in multiset(s)
  {
    assert s == s[..|s| - 1] + [s[|s| - 1]];
  }

  /** Listing one more directory adds exactly its own entries. */
  lemma ListOneMore(tree: Tree, done: set<Path>, dir: Path)
    requires dir !in done
    ensures multiset(FilesIn(tree, done + {dir})) ==
            multiset(FilesIn(tree, done)) + multiset(FilesAmong(tree, Children(tree, dir)))
    ensures DirsIn(tree, done + {dir}) == DirsIn(tree, done) + DirsAmong(tree, Children(tree, dir))
    ensures forall d :: d in DirsAmong(tree, Children(tree, dir)) ==>
                          d != [] && Parent(d) == dir && d !in DirsAmong(tree, ChildrenOf(tree, done))
  {
    assert ChildrenOf(tree, done + {dir}) == ChildrenOf(tree, done) + Children(tree, dir);
    assert FilesIn(tree, done + {dir}) == FilesIn(tree, done) + FilesAmong(tree, Children(tree, dir));
    DisjointSum(FilesIn(tree, done), FilesAmong(tree, Children(tree, dir)));
  }

  lemma WalkNext(tree: Tree, files: seq<Path>, pending: seq<Path>, done: set<Path>, moreFiles: seq<Path>,
                 morePending: seq<Path>)
    requires pending != [] && Walking(tree, files, pending, done)
    requires Sorting(tree, Children(tree, pending[|pending| - 1]), files, pending[..|pending| - 1], moreFiles, morePending)
    ensures pending[|pending| - 1] !in done
    ensures Walking(tree, moreFiles, morePending, done + {pending[|pending| - 1]})
  {
    hide FilesIn, DirsIn, FilesAmong, DirsAmong, Children, InLib;
    var dir, found := pending[|pending| - 1], DirsAmong(tree, Children(tree, pending[|pending| - 1]));
    PopLast(pending);
    DirIsNew(tree, pending, done);
    ListOneMore(tree, done, dir);
    FrontierMoves(tree, done, dir);
    MoveFrontier(multiset(pending[..|pending| - 1]), dir, DirsIn(tree, done) - done, found);
  }

  /** Taking one element out of a set and putting others in, counted. */
  lemma MoveFrontier<T>(rest: multiset<T>, x: T, before: set<T>, found: set<T>)
    requires x in before && multiset(before) == rest + multiset{x} && (before - {x}) !! found
    ensures rest + multiset(found) == multiset(before - {x} + found)
  {
    forall y ensures (rest + multiset(found))[y] == multiset(before - {x} + found)[y] {
      assert multiset(before)[y] == (rest + multiset{x})[y];
    }
  }

  lemma DirIsNew(tree: Tree, pending: seq<Path>, done: set<Path>)
    requires pending != [] && multiset(pending) == multiset(DirsIn(tree, done) - done) && InLib(tree, done)
    ensures var dir := pending[|pending| - 1];
            dir in DirsIn(tree, done) - done && (dir == LIB || BelowLib(dir)) && (dir != LIB ==> dir in tree && tree[dir].Directory?)
  {
    PopLast(pending);
    var dir := pending[|pending| - 1];
    assert dir in multiset(DirsIn(tree, done) - done);
    if dir != LIB {
      assert dir[0] == Parent(dir)[0];
    }
  }

  lemma FrontierMoves(tree: Tree, done: set<Path>, dir: Path)
    requires InLib(tree, done) && dir in DirsIn(tree, done) - done && (dir == LIB || BelowLib(dir))
    ensures var dirs, found, after := DirsIn(tree, done), DirsAmong(tree, Children(tree, dir)), done + {dir};
            && DirsIn(tree, after) - after == (dirs - done - {dir}) + found
            && (dirs - done - {dir}) !! found
    ensures InLib(tree, done + {dir})
  {
    ListOneMore(tree, done, dir);
    var found := DirsAmong(tree, Children(tree, dir));
    forall d | d in found ensures d !in DirsIn(tree, done) && d != dir && d !in done {
      assert |d| == |dir| + 1;
    }
  }

  lemma NothingLeft<T>(s: set<T>, done: set<T>)
    requires multiset(s - done) == multiset{}
    ensures s <= done
  {
    forall x | x in s ensures x in done {
      assert x in s - done <==> x in multiset(s - done);
    }
  }

  /** Once no directory is left, every entry below `lib` has been met, unless a link stood in the way. */
  lemma {:induction false} AllMet(tree: Tree, done: set<Path>, p: Path)
    requires WellFormed(tree) && DirsIn(tree, done) <= done && p in tree && BelowLib(p)
    requires forall q :: q in FilesIn(tree, done) ==> IsOrdinary(tree, q)
    ensures Parent(p) in done
    decreases |p|
  {
    var q := Parent(p);
    if |p| == 2 {
      assert q == LIB;
    } else {
      AllMet(tree, done, q);
      assert q in FilesIn(tree, done) || tree[q].Directory?;
    }
  }

  /** The walk has met no link and no special file exactly when there is none below `lib`. */
  lemma AllOrdinary(tree: Tree, done: set<Path>)
    requires WellFormed(tree) && InLib(tree, done) && DirsIn(tree, done) <= done
    ensures (forall p :: p in FilesIn(tree, done) ==> IsOrdinary(tree, p)) <==>
            forall p :: p in tree && BelowLib(p) ==> tree[p].Ordinary? || tree[p].Directory?
    ensures (forall p :: p in FilesIn(tree, done) ==> IsOrdinary(tree, p)) ==>
              FilesIn(tree, done) == set p | p in tree && BelowLib(p) && tree[p].Ordinary?
  {
    assert forall p :: p in FilesIn(tree, done) ==> p in tree && BelowLib(p) && !tree[p].Directory?;
    if forall p :: p in FilesIn(tree, done) ==> IsOrdinary(tree, p) {
      forall p | p in tree && BelowLib(p) && !tree[p].Directory? ensures p in FilesIn(tree, done) {
        AllMet(tree, done, p);
      }
    }
  }

  lemma WalkEnds(tree: Tree, files: seq<Path>, done: set<Path>)
    requires WellFormed(tree) && Walking(tree, files, [], done) && Listable(tree, LIB)
    ensures (forall p :: p in files ==> IsOrdinary(tree, p)) <==> Acceptable(tree)
    ensures Acceptable(tree) ==> multiset(files) == multiset(Identity(tree))
  {
    hide WellFormed, FilesIn, DirsIn, InLib;
    NothingLeft(DirsIn(tree, done), done);
    AllOrdinary(tree, done);
    forall p ensures p in files <==> p in TOOLS || p in FilesIn(tree, done) {
      assert p in files <==> p in multiset(files);
      assert p in TOOLS <==> p in multiset(TOOLS);
    }
    ToolsApart();
    if Acceptable(tree) {
      DisjointSum((set t | t in TOOLS), FilesIn(tree, done));
    }
  }

  lemma ToolsApart()
    ensures multiset(TOOLS) == multiset(set t | t in TOOLS) && forall t :: t in TOOLS ==> !BelowLib(t)
  {
    assert TOOLS[0][1] != TOOLS[1][1] && TOOLS[0][1] != TOOLS[2][1] && TOOLS[1][1] != TOOLS[2][1] by {
      assert |"cargo"| == 5 && |"rustc"| == 5 && |"rustdoc"| == 7 && "cargo"[0] != "rustc"[0];
    }
    assert (set t | t in TOOLS) == {TOOLS[0], TOOLS[1], TOOLS[2]};
    assert TOOLS == [TOOLS[0]] + [TOOLS[1]] + [TOOLS[2]];
    assert "bin"[0] != "lib"[0];
  }

  function PathKey(p: Path): Key { p }

  /** The paths in order, each once. */
  ghost predicate Enumerates(paths: seq<Path>, s: set<Path>) {
    Sorted(paths, PathKey) && multiset(paths) == multiset(s)
  }

  method ToolchainFiles(tree: Tree) returns (r: Result<seq<Path>, WalkError>)
    requires WellFormed(tree)
    ensures r.Success? <==> Acceptable(tree)
    ensures r.Success? ==> Enumerates(r.value, Identity(tree))
  {
    hide WellFormed, Walking, Acceptable, Identity, Sorted, Sorting, Insert, SortBy;
    var files, pending := TOOLS, [LIB];
    ghost var done: set<Path> := {};
    WalkStarts(tree);
    while pending != []
      invariant Walking(tree, files, pending, done)
      invariant done == {} ==> pending == [LIB]
      invariant done != {} ==> Listable(tree, LIB)
      decreases tree.Keys - done
    {
      var dir := pending[|pending| - 1];
      var listing := ReadDir(tree, dir);
      if listing.Failure? {
        OnlyLibUnreadable(tree, files, pending, done);
        return Failure(listing.error);
      }
      var moreFiles, morePending := ListDir(tree, listing.value, files, pending[..|pending| - 1]);
      WalkNext(tree, files, pending, done, moreFiles, morePending);
      files, pending, done := moreFiles, morePending, done + {dir};
    }
    WalkEnds(tree, files, done);
    SortBySorts(files, PathKey);
    ghost var found := files;
    files := SortBy(files, PathKey);
    forall p ensures p in files <==> p in found {
      InMultiset(files, found, p);
    }
    for i := 0 to |files|
      invariant forall k :: 0 <= k < i ==> IsOrdinary(tree, files[k])
    {
      if !IsOrdinary(tree, files[i]) {
        return Failure(NotOrdinary(files[i]));
      }
    }
    r := Success(files);
  }

  lemma OnlyLibUnreadable(tree: Tree, files: seq<Path>, pending: seq<Path>, done: set<Path>)
    requires pending != [] && Walking(tree, files, pending, done) && !Listable(tree, pending[|pending| - 1])
    ensures !Acceptable(tree)
  {
    PopLast(pending);
    assert pending[|pending| - 1] in DirsIn(tree, done);
  }

  /** The list does not depend on the order in which directories list their entries. */
  lemma ListingOrderIrrelevant(a: seq<Path>, b: seq<Path>, s: set<Path>)
    requires Enumerates(a, s) && Enumerates(b, s)
    ensures a == b
  {
    SortedUnique(a, b, PathKey);
  }

  // ---- links ----

  /** A place the identity depends on: `lib`, `bin`, a tool, or something below `lib`. */
  predicate Involved(p: Path) {
    p == LIB || p == BIN || p in TOOLS || BelowLib(p)
  }

  /** No place the identity depends on is a link or a special file. */
  ghost predicate LinkFree(tree: Tree) {
    forall p :: p in tree && Involved(p) ==> tree[p].Ordinary? || tree[p].Directory?
  }

  /** An identity is taken from a tree with a link in it exactly when `lib` or `bin` is itself a link to a directory. */
  lemma LinksRefused(tree: Tree)
    requires WellFormed(tree) && Acceptable(tree)
    ensures LIB in tree && BIN in tree
    ensures LinkFree(tree) <==> !tree[LIB].LinkToDirectory? && !tree[BIN].LinkToDirectory?
  {
    assert TOOLS[0] in TOOLS && Parent(TOOLS[0]) == BIN;
  }

  /** Three tools in one directory, and one library behind a link. */
  function LinkedTree(bin: Path, tools: seq<Path>, lib: Path, library: Path): Tree
    requires |tools| == 3
  {
    map[bin := Directory, tools[0] := Ordinary("a"), tools[1] := Ordinary("b"), tools[2] := Ordinary("c"),
        lib := LinkToDirectory, library := Ordinary("d")]
  }

  lemma LinkedTreeShape(bin: Path, tools: seq<Path>, lib: Path, library: Path)
    requires |tools| == 3 && IsPath(bin) && IsPath(lib) && IsPath(library) && bin != lib
    requires forall k :: 0 <= k < 3 ==> IsPath(tools[k]) && |tools[k]| == 2 && Parent(tools[k]) == bin && !BelowLib(tools[k])
    requires |bin| == 1 && |lib| == 1 && |library| == 2 && Parent(library) == lib
    ensures var tree := LinkedTree(bin, tools, lib, library);
            && WellFormed(tree) && lib in tree && tree[lib].LinkToDirectory? && IsOrdinary(tree, library)
            && (forall t :: t in tools ==> IsOrdinary(tree, t))
            && (forall p :: p in tree && BelowLib(p) ==> p == library)
  {
    hide IsPath, LinkedTree;
    var tree := LinkedTree(bin, tools, lib, library);
    forall k | 0 <= k < 3 ensures tools[k] != library && tools[k] != lib && tools[k] != bin {
      assert Parent(tools[k]) != Parent(library);
    }
    LinkedTreeEntries(bin, tools, lib, library);
    assert Listable(tree, bin) && Listable(tree, lib);
  }

  lemma LinkedTreeEntries(bin: Path, tools: seq<Path>, lib: Path, library: Path)
    requires |tools| == 3 && bin != lib && library != bin && library != lib
    requires forall k :: 0 <= k < 3 ==> tools[k] != library && tools[k] != lib && tools[k] != bin
    ensures var tree := LinkedTree(bin, tools, lib, library);
            && (forall p :: p in tree <==> p == bin || p == lib || p == library || p in tools)
            && tree[bin] == Directory && tree[lib] == LinkToDirectory && tree[library].Ordinary?
            && forall t :: t in tools ==> tree[t].Ordinary?
  {
    assert tools == [tools[0], tools[1], tools[2]];
  }

  /** A toolchain whose `lib` is a link is accepted, and the files behind the link are part of its identity. */
  lemma LinkedLibIsFollowed()
    ensures var library := ["lib", "libstd.rlib"];
            var tree := LinkedTree(BIN, TOOLS, LIB, library);
            WellFormed(tree) && LIB in tree && tree[LIB].LinkToDirectory? && Acceptable(tree) && library in Identity(tree)
  {
    var library := ["lib", "libstd.rlib"];
    hide LinkedTree, WellFormed, IsPath;
    NamesArePaths();
    ToolsApart();
    assert "bin"[0] != "lib"[0] && BIN[0] != LIB[0];
    assert Parent(TOOLS[0]) == BIN && Parent(TOOLS[1]) == BIN && Parent(TOOLS[2]) == BIN && Parent(library) == LIB;
    LinkedTreeShape(BIN, TOOLS, LIB, library);
  }

  lemma NamesArePaths()
    ensures IsPath(BIN) && IsPath(LIB) && IsPath(["lib", "libstd.rlib"])
    ensures IsPath(TOOLS[0]) && IsPath(TOOLS[1]) && IsPath(TOOLS[2])
  {
  }

  // ---- the digest ----

  predicate Readable(tree: Tree, paths: seq<Path>) {
    forall k :: 0 <= k < |paths| ==> IsOrdinary(tree, paths[k])
  }

  function FileAt(tree: Tree, p: Path): File
    requires IsOrdinary(tree, p)
  {
    File(p, tree[p].content)
  }

  function FilesOf(tree: Tree, paths: seq<Path>): (files: seq<File>)
    requires Readable(tree, paths)
    ensures |files| == |paths|
    ensures forall k :: 0 <= k < |files| ==> IsOrdinary(tree, paths[k]) && files[k] == FileAt(tree, paths[k])
  {
    if paths == [] then []
    else
      var n := |paths| - 1;
      FilesOf(tree, paths[..n]) + [FileAt(tree, paths[n])]
  }

  method ToolchainDigest(tree: Tree, capacity: nat) returns (r: Result<Digest, WalkError>, ghost paths: seq<Path>)
    requires WellFormed(tree) && capacity > 0
    ensures r.Success? <==> Acceptable(tree)
    ensures r.Success? ==> Enumerates(paths, Identity(tree)) && Readable(tree, paths)
    ensures r.Success? ==> r.value == Sha256(Stream(FilesOf(tree, paths)))
  {
    hide WellFormed, Acceptable, Enumerates, FilesOf;
    paths := [];
    var files :- ToolchainFiles(tree);
    paths := files;
    IdentityIsOrdinary(tree, files);
    var digest := DigestOf(FilesOf(tree, files), capacity);
    r := Success(digest);
  }

  lemma IdentityIsOrdinary(tree: Tree, paths: seq<Path>)
    requires Acceptable(tree) && Enumerates(paths, Identity(tree))
    ensures Readable(tree, paths)
  {
    forall k | 0 <= k < |paths| ensures paths[k] in Identity(tree) {
      assert paths[k] in multiset(paths);
    }
  }

  /** Two trees have the same identity: the same tools and the same files below `lib`, byte for byte. */
  ghost predicate SameToolchain(a: Tree, b: Tree)
    requires Acceptable(a) && Acceptable(b)
  {
    Identity(a) == Identity(b) && forall p :: p in Identity(a) ==> p in a && p in b && a[p] == b[p]
  }

  ghost predicate Sized(tree: Tree) {
    forall p :: p in tree && tree[p].Ordinary? ==> |tree[p].content| < U64_COUNT
  }

  lemma FilesAreFiles(tree: Tree, paths: seq<Path>, k: nat)
    requires WellFormed(tree) && Sized(tree) && Readable(tree, paths) && k < |paths|
    ensures IsFile(FilesOf(tree, paths)[k])
  {
    hide FilesOf;
  }

  /** Over sorted lists of two sets, digests are equal exactly when the sets and the contents are. */
  lemma DigestsOfSets(a: Tree, b: Tree, pathsA: seq<Path>, pathsB: seq<Path>, setA: set<Path>, setB: set<Path>)
    requires WellFormed(a) && WellFormed(b) && Sized(a) && Sized(b)
    requires Enumerates(pathsA, setA) && Readable(a, pathsA)
    requires Enumerates(pathsB, setB) && Readable(b, pathsB)
    ensures Sha256(Stream(FilesOf(a, pathsA))) == Sha256(Stream(FilesOf(b, pathsB))) <==>
            setA == setB && forall p :: p in setA ==> p in a && p in b && a[p] == b[p]
  {
    hide WellFormed, Sized, Stream, IsFile, FilesOf, Sorted;
    var filesA, filesB := FilesOf(a, pathsA), FilesOf(b, pathsB);
    forall k | 0 <= k < |filesA| ensures IsFile(filesA[k]) { FilesAreFiles(a, pathsA, k); }
    forall k | 0 <= k < |filesB| ensures IsFile(filesB[k]) { FilesAreFiles(b, pathsB, k); }
    DigestsDetermineFiles(filesA, filesB);
    Listed(pathsA, setA);
    Listed(pathsB, setB);
    if setA == setB && forall p :: p in setA ==> p in a && p in b && a[p] == b[p] {
      ListingOrderIrrelevant(pathsA, pathsB, setA);
    }
  }

  /** Toolchain digests are equal exactly when the toolchains are; nothing else in the trees counts. */
  lemma DigestIsIdentity(a: Tree, b: Tree, pathsA: seq<Path>, pathsB: seq<Path>)
    requires WellFormed(a) && WellFormed(b) && Sized(a) && Sized(b) && Acceptable(a) && Acceptable(b)
    requires Enumerates(pathsA, Identity(a)) && Readable(a, pathsA)
    requires Enumerates(pathsB, Identity(b)) && Readable(b, pathsB)
    ensures Sha256(Stream(FilesOf(a, pathsA))) == Sha256(Stream(FilesOf(b, pathsB))) <==> SameToolchain(a, b)
  {
    DigestsOfSets(a, b, pathsA, pathsB, Identity(a), Identity(b));
  }

  lemma Listed(paths: seq<Path>, s: set<Path>)
    requires Enumerates(paths, s)
    ensures forall p :: p in s <==> p in paths
    ensures forall k :: 0 <= k < |paths| ==> paths[k] in s
  {
    forall p ensures p in s <==> p in paths {
      assert p in paths <==> p in multiset(paths);
    }
  }
}
