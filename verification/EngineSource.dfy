/** The digest of the contract engine's own sources, found by a recursive walk. */
module EngineSource {
  import opened Wrappers
  import opened Ordering
  import opened Framing
  import opened Toolchains

  const ROOT_FILES: seq<Path> := [["Cargo.toml"], ["Cargo.lock"], ["build.rs"], ["build_identity.rs"]]
  const SRC: Path := ["src"]

  /** The ordinary files at or below one of the paths `tops`. */
  ghost function FilesUnder(tree: Tree, tops: set<Path>): set<Path> {
    set p | p in tree && tree[p].Ordinary? && Under(tops, p)
  }

  ghost predicate Under(tops: set<Path>, p: Path) {
    exists c :: c in tops && c <= p
  }

  ghost function Below(tree: Tree, dir: Path): set<Path> {
    set p | p in tree && dir < p
  }

  ghost predicate Plain(tree: Tree, p: Path) {
    p in tree && (tree[p].Ordinary? || tree[p].Directory?)
  }

  /** At and below the paths `tops` there are only ordinary files and directories. */
  ghost predicate AllPlain(tree: Tree, tops: set<Path>) {
    forall p :: p in tree && Under(tops, p) ==> Plain(tree, p)
  }

  lemma {:induction false} NothingBelowFile(tree: Tree, c: Path, p: Path)
    requires WellFormed(tree) && IsOrdinary(tree, c) && p in tree && c != [] && c <= p
    ensures p == c
    decreases |p|
  {
    if |c| < |p| {
      assert |c| == |p| - 1 ==> c == Parent(p);
      assert |p| > 1 && Listable(tree, Parent(p)) && c <= Parent(p);
      if |c| < |p| - 1 {
        NothingBelowFile(tree, c, Parent(p));
      }
    }
  }

  /** What is below a directory is at or below one of its entries. */
  lemma {:induction false} BelowIsUnderChild(tree: Tree, dir: Path, p: Path) returns (c: Path)
    requires WellFormed(tree) && dir != [] && p in tree && dir < p
    ensures c in Children(tree, dir) && c <= p
    decreases |p|
  {
    if |p| == |dir| + 1 {
      c := p;
      assert Parent(p) == dir;
    } else {
      assert dir < Parent(p);
      c := BelowIsUnderChild(tree, dir, Parent(p));
    }
  }

  lemma ChildUnder(tree: Tree, dir: Path, c: Path)
    requires c in Children(tree, dir)
    ensures dir < c && c in Below(tree, dir) && Below(tree, c) < Below(tree, dir)
  {
    assert c !in Below(tree, c);
  }

  lemma DirectoryFiles(tree: Tree, dir: Path)
    requires WellFormed(tree) && dir != [] && dir in tree && tree[dir].Directory?
    ensures FilesUnder(tree, Children(tree, dir)) == FilesUnder(tree, {dir})
    ensures AllPlain(tree, Children(tree, dir)) <==> AllPlain(tree, {dir})
  {
    hide WellFormed, Children;
    forall p | p in tree ensures Under(Children(tree, dir), p) <==> dir < p {
      if dir < p {
        var c := BelowIsUnderChild(tree, dir, p);
      }
      forall c | c in Children(tree, dir) && c <= p ensures dir < p {
        ChildUnder(tree, dir, c);
      }
    }
    forall p ensures Under({dir}, p) <==> dir <= p {
      assert dir in {dir};
    }
    assert Plain(tree, dir);
    hide Under;
    forall p | p in tree ensures Under({dir}, p) <==> p == dir || Under(Children(tree, dir), p) {
    }
    assert FilesUnder(tree, Children(tree, dir)) == FilesUnder(tree, {dir});
  }

  lemma SamePrefix(c: Path, d: Path, p: Path)
    ensures c <= p && d <= p && |c| == |d| ==> c == d
  {
  }

  lemma OneMoreTop(tree: Tree, dir: Path, seen: set<Path>, c: Path)
    requires seen <= Children(tree, dir) && c in Children(tree, dir) && c !in seen
    ensures multiset(FilesUnder(tree, seen + {c})) == multiset(FilesUnder(tree, seen)) + multiset(FilesUnder(tree, {c}))
    ensures AllPlain(tree, seen + {c}) <==> AllPlain(tree, seen) && AllPlain(tree, {c})
  {
    forall p ensures Under(seen, p) ==> !Under({c}, p) {
      forall d | d in seen && d <= p ensures !(c <= p) {
        assert |d| == |dir| + 1 == |c|;
        SamePrefix(c, d, p);
      }
    }
    forall p ensures Under(seen + {c}, p) <==> Under(seen, p) || Under({c}, p) {
      if c <= p { assert c in {c} && c in seen + {c}; }
      if d :| d in seen && d <= p { assert d in seen + {c}; }
    }
    assert FilesUnder(tree, seen + {c}) == FilesUnder(tree, seen) + FilesUnder(tree, {c});
    DisjointSum(FilesUnder(tree, seen), FilesUnder(tree, {c}));
  }

  lemma FileTop(tree: Tree, c: Path)
    requires WellFormed(tree) && IsOrdinary(tree, c)
    ensures multiset(FilesUnder(tree, {c})) == multiset{c} && AllPlain(tree, {c})
  {
    forall p | p in tree && Under({c}, p) ensures p == c {
      NothingBelowFile(tree, c, p);
    }
    assert c in {c} && Under({c}, c);
    assert FilesUnder(tree, {c}) == {c};
  }

  lemma NoTops(tree: Tree)
    ensures FilesUnder(tree, {}) == {} && AllPlain(tree, {})
  {
  }

  /** Appends every file below a directory, or below what a link leads to; a link or a special file anywhere below refuses. */
  method CollectBelow(tree: Tree, dir: Path, files: seq<Path>) returns (r: Result<seq<Path>, WalkError>)
    requires WellFormed(tree) && dir != []
    ensures r.Success? <==> Listable(tree, dir) && AllPlain(tree, Children(tree, dir))
    ensures r.Success? ==> multiset(r.value) == multiset(files) + multiset(FilesUnder(tree, Children(tree, dir)))
    decreases |Below(tree, dir)|
  {
    hide WellFormed, FilesUnder, AllPlain, Below;
    if !Listable(tree, dir) {
      return Failure(Unreadable(dir));
    }
    var more := files;
    var rest := Children(tree, dir);
    ghost var seen: set<Path> := {};
    NoTops(tree);
    while rest != {}
      invariant seen + rest == Children(tree, dir) && seen !! rest
      invariant AllPlain(tree, seen) && multiset(more) == multiset(files) + multiset(FilesUnder(tree, seen))
    {
      var p :| p in rest;  // a directory lists its entries in any order
      ChildUnder(tree, dir, p);
      OneMoreTop(tree, dir, seen, p);
      TopsWithin(tree, seen + {p}, Children(tree, dir));
      if tree[p].Directory? {
        assert Below(tree, dir) == Below(tree, p) + (Below(tree, dir) - Below(tree, p));
        DirectoryFiles(tree, p);
        more :- CollectBelow(tree, p, more);
      } else if tree[p].Ordinary? {
        FileTop(tree, p);
        more := more + [p];
      } else {
        NotPlain(tree, p);
        return Failure(NotOrdinary(p));
      }
      rest, seen := rest - {p}, seen + {p};
    }
    assert seen == Children(tree, dir);
    r := Success(more);
  }

  /** The same, but a linked directory is refused as well. */
  method Collect(tree: Tree, dir: Path, files: seq<Path>) returns (r: Result<seq<Path>, WalkError>)
    requires WellFormed(tree) && dir != []
    ensures r.Success? <==> dir in tree && tree[dir].Directory? && AllPlain(tree, {dir})
    ensures r.Success? ==> multiset(r.value) == multiset(files) + multiset(FilesUnder(tree, {dir}))
  {
    hide WellFormed, FilesUnder, AllPlain;
    if dir !in tree || !tree[dir].Directory? {
      return Failure(Unreadable(dir));
    }
    DirectoryFiles(tree, dir);
    r := CollectBelow(tree, dir, files);
  }

  lemma TopsWithin(tree: Tree, some: set<Path>, tops: set<Path>)
    requires some <= tops
    ensures AllPlain(tree, tops) ==> AllPlain(tree, some)
  {
    forall p | Under(some, p) ensures Under(tops, p) {
    }
  }

  lemma NotPlain(tree: Tree, p: Path)
    requires p in tree && !tree[p].Directory? && !tree[p].Ordinary?
    ensures !AllPlain(tree, {p})
  {
    assert !Plain(tree, p) && p in {p} && Under({p}, p);
  }

  // ---- the digest ----

  ghost predicate OrdinaryRoots(tree: Tree) {
    forall f :: f in ROOT_FILES ==> IsOrdinary(tree, f)
  }

  /** The root files and everything in the source tree are ordinary. */
  ghost predicate OrdinaryEngine(tree: Tree) {
    && OrdinaryRoots(tree)
    && SRC in tree && tree[SRC].Directory? && AllPlain(tree, {SRC})
  }

  /** The files the engine is built from. */
  ghost function EngineFiles(tree: Tree): set<Path> {
    (set f | f in ROOT_FILES) + FilesUnder(tree, {SRC})
  }

  lemma RootFilesApart(tree: Tree)
    ensures multiset(ROOT_FILES) + multiset(FilesUnder(tree, {SRC})) == multiset(EngineFiles(tree))
  {
    var roots := set f | f in ROOT_FILES;
    forall p | p in FilesUnder(tree, {SRC}) ensures p !in roots {
      assert p[0] == "src" && |"src"| == 3;
    }
    DisjointSum(roots, FilesUnder(tree, {SRC}));
  }

  lemma OrdinaryFiles(tree: Tree, paths: seq<Path>)
    requires multiset(paths) == multiset(ROOT_FILES) + multiset(FilesUnder(tree, {SRC}))
    requires OrdinaryRoots(tree)
    ensures Readable(tree, paths)
  {
    forall k | 0 <= k < |paths| ensures IsOrdinary(tree, paths[k]) {
      assert paths[k] in multiset(paths);
      assert paths[k] in multiset(ROOT_FILES) <==> paths[k] in ROOT_FILES;
    }
  }

  method HashFiles(tree: Tree, paths: seq<Path>) returns (digest: Digest)
    requires Readable(tree, paths)
    ensures digest == Sha256(Stream(FilesOf(tree, paths)))
  {
    hide FilesOf, Name, LittleEndian, IsOrdinary;
    ghost var files := FilesOf(tree, paths);
    var hasher := new Hasher();
    assert files[..0] == [];
    for i := 0 to |paths|
      invariant fresh(hasher) && hasher.fed == Stream(files[..i])
    {
      assert files[..i + 1][..i] == files[..i];
      var file := FileAt(tree, paths[i]);
      hasher.Update(Name(paths[i]));
      hasher.Update([NUL]);
      hasher.Update(LittleEndian(|file.content|, 8));
      hasher.Update(file.content);
    }
    assert files[..|files|] == files;
    digest := hasher.Finalize();
  }

  /** Sorts and hashes the root files and those found below `src`. */
  method HashSorted(tree: Tree, files: seq<Path>) returns (r: Result<Digest, WalkError>, ghost paths: seq<Path>)
    requires multiset(files) == multiset(ROOT_FILES) + multiset(FilesUnder(tree, {SRC}))
    ensures r.Success? <==> OrdinaryRoots(tree)
    ensures r.Success? ==> Enumerates(paths, EngineFiles(tree)) && Readable(tree, paths)
    ensures r.Success? ==> r.value == Sha256(Stream(FilesOf(tree, paths)))
  {
    hide FilesUnder, EngineFiles, Sorted, FilesOf, Insert, SortBy, Readable;
    RootFilesApart(tree);
    SortBySorts(files, PathKey);
    var sorted := SortBy(files, PathKey);
    paths := sorted;
    for i := 0 to |ROOT_FILES|
      invariant forall k :: 0 <= k < i ==> IsOrdinary(tree, ROOT_FILES[k])
    {
      if !IsOrdinary(tree, ROOT_FILES[i]) {
        return Failure(NotOrdinary(ROOT_FILES[i])), paths;
      }
    }
    OrdinaryFiles(tree, sorted);
    var digest := HashFiles(tree, sorted);
    r := Success(digest);
  }

  method SourceDigest(tree: Tree) returns (r: Result<Digest, WalkError>, ghost paths: seq<Path>)
    requires WellFormed(tree)
    ensures r.Success? <==> OrdinaryEngine(tree)
    ensures r.Success? ==> Enumerates(paths, EngineFiles(tree)) && Readable(tree, paths)
    ensures r.Success? ==> r.value == Sha256(Stream(FilesOf(tree, paths)))
  {
    hide WellFormed, FilesUnder, AllPlain, EngineFiles, FilesOf, Readable;
    paths := [];
    var files :- Collect(tree, SRC, ROOT_FILES);
    r, paths := HashSorted(tree, files);
  }

  /** Engine digests are equal exactly when the engines' files are. */
  lemma SourceDigestIsIdentity(a: Tree, b: Tree, pathsA: seq<Path>, pathsB: seq<Path>)
    requires WellFormed(a) && WellFormed(b) && Sized(a) && Sized(b)
    requires Enumerates(pathsA, EngineFiles(a)) && Readable(a, pathsA)
    requires Enumerates(pathsB, EngineFiles(b)) && Readable(b, pathsB)
    ensures Sha256(Stream(FilesOf(a, pathsA))) == Sha256(Stream(FilesOf(b, pathsB))) <==>
            EngineFiles(a) == EngineFiles(b) && forall p :: p in EngineFiles(a) ==> p in a && p in b && a[p] == b[p]
  {
    DigestsOfSets(a, b, pathsA, pathsB, EngineFiles(a), EngineFiles(b));
  }

  // ---- the build script's version ----

  predicate IsRootFile(p: Path) {
    p in ROOT_FILES
  }

  /** What reading finds at a path: an entry, or what a link to a file leads to. */
  function Seen(tree: Tree, linked: Path -> Option<Bytes>, p: Path): Entry
    requires p in tree
  {
    if p == SRC && tree[p].LinkToDirectory? then Directory
    else if IsRootFile(p) && tree[p].Other? && linked(p).Some? then Ordinary(linked(p).value)
    else tree[p]
  }

  /** The tree with the links followed that the build script follows: those at the root files and at `src`. */
  function Followed(tree: Tree, linked: Path -> Option<Bytes>): Tree {
    map p | p in tree :: Seen(tree, linked, p)
  }

  lemma FollowedIsTree(tree: Tree, linked: Path -> Option<Bytes>)
    requires WellFormed(tree)
    ensures WellFormed(Followed(tree, linked))
    ensures forall p :: p in tree && SRC < p ==> Followed(tree, linked)[p] == tree[p]
    ensures Children(Followed(tree, linked), SRC) == Children(tree, SRC)
    ensures Listable(tree, SRC) <==> SRC in Followed(tree, linked) && Followed(tree, linked)[SRC].Directory?
  {
    hide IsRootFile, IsPath;
    forall p { RootFileIsShort(p); }
    var followed := Followed(tree, linked);
    assert forall p :: Listable(tree, p) ==> Listable(followed, p);
  }

  lemma RootFileIsShort(p: Path)
    ensures IsRootFile(p) ==> |p| == 1
  {
  }

  lemma FollowedFiles(tree: Tree, linked: Path -> Option<Bytes>)
    requires WellFormed(tree) && Listable(tree, SRC)
    ensures AllPlain(tree, Children(tree, SRC)) <==> AllPlain(Followed(tree, linked), {SRC})
    ensures FilesUnder(tree, Children(tree, SRC)) == FilesUnder(Followed(tree, linked), {SRC})
  {
    hide WellFormed, Children, Under, Seen;
    var followed, tops := Followed(tree, linked), Children(tree, SRC);
    FollowedIsTree(tree, linked);
    DirectoryFiles(followed, SRC);
    forall p | p in tree && Under(tops, p) ensures followed[p] == tree[p] {
      UnderSource(tree, p);
    }
    assert FilesUnder(tree, tops) == FilesUnder(followed, tops);
  }

  lemma FollowedEngineFiles(tree: Tree, linked: Path -> Option<Bytes>)
    ensures EngineFiles(Followed(tree, linked)) == EngineFiles(tree)
  {
    hide Under;
    forall p | p in tree && Under({SRC}, p) ensures Seen(tree, linked, p).Ordinary? <==> tree[p].Ordinary? {
      UnderOne(SRC, p);
      assert p[0] == "src" && |"src"| == 3;
    }
    assert FilesUnder(Followed(tree, linked), {SRC}) == FilesUnder(tree, {SRC});
  }

  lemma UnderOne(dir: Path, p: Path)
    requires Under({dir}, p)
    ensures dir <= p
  {
  }

  lemma UnderSource(tree: Tree, p: Path)
    requires Under(Children(tree, SRC), p)
    ensures SRC < p
  {
    var c :| c in Children(tree, SRC) && c <= p;
    ChildUnder(tree, SRC, c);
  }

  /** The build script takes the digest of the followed tree. */
  method BuildSourceDigest(tree: Tree, linked: Path -> Option<Bytes>)
    returns (r: Result<Digest, WalkError>, ghost paths: seq<Path>)
    requires WellFormed(tree)
    ensures r.Success? <==> OrdinaryEngine(Followed(tree, linked))
    ensures r.Success? ==> Enumerates(paths, EngineFiles(Followed(tree, linked))) && Readable(Followed(tree, linked), paths)
    ensures r.Success? ==> r.value == Sha256(Stream(FilesOf(Followed(tree, linked), paths)))
  {
    hide WellFormed, FilesUnder, AllPlain, EngineFiles, Followed, Children, FilesOf, Readable;
    paths := [];
    FollowedIsTree(tree, linked);
    if Listable(tree, SRC) {
      FollowedFiles(tree, linked);
    }
    var files :- CollectBelow(tree, SRC, ROOT_FILES);
    r, paths := HashSorted(Followed(tree, linked), files);
  }

  /**
   Whatever the writer of the pin accepts, the build script accepts and reads in the same way; what the build
   script accepts, the writer refuses exactly when a link was followed.
   */
  lemma BuildAgrees(tree: Tree, linked: Path -> Option<Bytes>)
    ensures OrdinaryEngine(tree) <==> OrdinaryEngine(Followed(tree, linked)) && Followed(tree, linked) == tree
  {
    if OrdinaryEngine(tree) {
      forall p | p in tree ensures Seen(tree, linked, p) == tree[p] {
      }
      assert Followed(tree, linked) == tree;
    }
  }

  /** The root files and a link at `src`. */
  function LinkedSource(roots: seq<Path>, src: Path, content: Bytes): Tree {
    (map f | f in roots :: Ordinary(content))[src := LinkToDirectory]
  }

  lemma LinkedSourceShape(roots: seq<Path>, src: Path, content: Bytes)
    requires src !in roots && IsPath(src) && |src| == 1
    requires forall f :: f in roots ==> IsPath(f) && |f| == 1
    ensures var tree := LinkedSource(roots, src, content);
            && WellFormed(tree) && src in tree && tree[src].LinkToDirectory?
            && (forall f :: f in roots ==> IsOrdinary(tree, f))
            && forall p :: p in tree ==> |p| == 1 && (p != src ==> tree[p].Ordinary?)
  {
    hide IsPath;
  }

  /** An engine whose `src` is a link is read by the build script and refused by the writer of the pin. */
  lemma LinkedSourceIsFollowed(content: Bytes, linked: Path -> Option<Bytes>)
    ensures var tree := LinkedSource(ROOT_FILES, SRC, content);
            WellFormed(tree) && OrdinaryEngine(Followed(tree, linked)) && !OrdinaryEngine(tree)
  {
    hide LinkedSource, IsPath, WellFormed, OrdinaryEngine, Followed;
    RootNames();
    LinkedSourceShape(ROOT_FILES, SRC, content);
    OnlySourceLinked(LinkedSource(ROOT_FILES, SRC, content), linked);
  }

  lemma OnlySourceLinked(tree: Tree, linked: Path -> Option<Bytes>)
    requires OrdinaryRoots(tree) && SRC in tree && tree[SRC].LinkToDirectory?
    requires forall p :: p in tree ==> |p| == 1 && (p != SRC ==> tree[p].Ordinary?)
    ensures OrdinaryEngine(Followed(tree, linked)) && !OrdinaryEngine(tree)
  {
    hide AllPlain, Followed, OrdinaryRoots;
    LinkBecomesDirectory(tree, linked);
    RootsStay(tree, tree[SRC := Directory]);
    NothingNested(tree[SRC := Directory], SRC);
  }

  lemma RootsStay(tree: Tree, followed: Tree)
    requires OrdinaryRoots(tree) && tree.Keys == followed.Keys
    requires forall p :: p in tree && tree[p].Ordinary? ==> followed[p].Ordinary?
    ensures OrdinaryRoots(followed)
  {
  }

  lemma LinkBecomesDirectory(tree: Tree, linked: Path -> Option<Bytes>)
    requires SRC in tree && tree[SRC].LinkToDirectory? && forall p :: p in tree && p != SRC ==> tree[p].Ordinary?
    ensures Followed(tree, linked) == tree[SRC := Directory]
  {
    hide IsRootFile;
  }

  lemma NothingNested(tree: Tree, top: Path)
    requires Plain(tree, top) && forall p :: p in tree ==> |p| == |top|
    ensures AllPlain(tree, {top})
  {
    forall p | p in tree && Under({top}, p) ensures Plain(tree, p) {
      assert top <= p && p == top;
    }
  }

  lemma RootNames()
    ensures SRC !in ROOT_FILES && IsPath(SRC) && |SRC| == 1
    ensures forall f :: f in ROOT_FILES ==> IsPath(f) && |f| == 1
  {
    hide IsPath;
    OneName("src");
    OneName("Cargo.toml");
    OneName("Cargo.lock");
    OneName("build.rs");
    OneName("build_identity.rs");
    assert |SRC[0]| == 3 && forall k :: 0 <= k < 4 ==> |ROOT_FILES[k][0]| > 3;
  }

  lemma OneName(name: Bytes)
    requires name != [] && NUL !in name && SLASH !in name
    ensures IsPath([name])
  {
  }

  /** The build script finds the pinned digest exactly when what it reads is what the writer of the pin read. */
  lemma BuildChecksPin(pinned: Tree, built: Tree, linked: Path -> Option<Bytes>, pathsP: seq<Path>, pathsB: seq<Path>)
    requires WellFormed(pinned) && WellFormed(built) && Sized(pinned) && Sized(Followed(built, linked))
    requires Enumerates(pathsP, EngineFiles(pinned)) && Readable(pinned, pathsP)
    requires Enumerates(pathsB, EngineFiles(Followed(built, linked))) && Readable(Followed(built, linked), pathsB)
    ensures Sha256(Stream(FilesOf(pinned, pathsP))) == Sha256(Stream(FilesOf(Followed(built, linked), pathsB))) <==>
            && EngineFiles(pinned) == EngineFiles(built)
            && forall p :: p in EngineFiles(pinned) ==> p in pinned && p in built && pinned[p] == Seen(built, linked, p)
  {
    hide WellFormed, Sized, Enumerates, Readable, FilesOf, Stream, EngineFiles, Seen;
    FollowedIsTree(built, linked);
    FollowedEngineFiles(built, linked);
    SourceDigestIsIdentity(pinned, Followed(built, linked), pathsP, pathsB);
  }
}
