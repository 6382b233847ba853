/** Every Rust source file of a repository, outside the directories that are never searched. */
module RustSources {
  import opened Ordering
  import opened Framing
  import opened Toolchains

  const EXCLUDED_DIRECTORIES: set<string> := {".git", ".meta-workspace", ".sim", "target"}

  function FileName(p: Path): string
    requires p != []
  {
    p[|p| - 1]
  }

  /** The extension is `rs`, and is not all of the name. */
  predicate IsRust(p: Path) {
    p != [] && |FileName(p)| > 3 && FileName(p)[|FileName(p)| - 3..] == ".rs"
  }

  /** Something to be listed in its turn: a directory, also through a link, that is not excluded. */
  predicate Entered(tree: Tree, p: Path) {
    p != [] && Listable(tree, p) && FileName(p) !in EXCLUDED_DIRECTORIES
  }

  predicate Source(tree: Tree, p: Path) {
    p in tree && !Listable(tree, p) && IsRust(p)
  }

  // ---- what the search should find ----

  /** No directory on the way to `p` is excluded. */
  predicate Reachable(p: Path) {
    forall k :: 0 <= k < |p| - 1 ==> p[k] !in EXCLUDED_DIRECTORIES
  }

  ghost function Sources(tree: Tree): set<Path> {
    set p | p in tree && Source(tree, p) && Reachable(p)
  }

  // ---- the search ----

  ghost function SourcesAmong(tree: Tree, s: set<Path>): set<Path> {
    set p | p in s && Source(tree, p)
  }

  ghost function EnteredAmong(tree: Tree, s: set<Path>): set<Path> {
    set p | p in s && Entered(tree, p)
  }

  ghost function SourcesIn(tree: Tree, done: set<Path>): set<Path> {
    SourcesAmong(tree, ChildrenOf(tree, done))
  }

  /** The root, and the directories found by listing the directories `done`. */
  ghost function DirectoriesIn(tree: Tree, done: set<Path>): set<Path> {
    {[]} + EnteredAmong(tree, ChildrenOf(tree, done))
  }

  ghost predicate Searching(tree: Tree, sources: seq<Path>, pending: seq<Path>, done: set<Path>) {
    && multiset(sources) == multiset(SourcesIn(tree, done))
    && multiset(pending) == multiset(DirectoriesIn(tree, done) - done)
    && done <= DirectoriesIn(tree, done)
  }

  /** The entries `seen` of a directory have been sorted into sources, directories to list, and the rest. */
  ghost predicate Picking(tree: Tree, seen: set<Path>, sources: seq<Path>, pending: seq<Path>, moreSources: seq<Path>,
                          morePending: seq<Path>) {
    && multiset(moreSources) == multiset(sources) + multiset(SourcesAmong(tree, seen))
    && multiset(morePending) == multiset(pending) + multiset(EnteredAmong(tree, seen))
  }

  lemma AmongMore(tree: Tree, seen: set<Path>, p: Path)
    requires p !in seen
    ensures multiset(SourcesAmong(tree, seen + {p})) ==
            multiset(SourcesAmong(tree, seen)) + if Source(tree, p) then multiset{p} else multiset{}
    ensures multiset(EnteredAmong(tree, seen + {p})) ==
            multiset(EnteredAmong(tree, seen)) + if Entered(tree, p) then multiset{p} else multiset{}
  {
    hide Source, Entered;
    assert SourcesAmong(tree, seen + {p}) == SourcesAmong(tree, seen) + if Source(tree, p) then {p} else {};
    assert EnteredAmong(tree, seen + {p}) == EnteredAmong(tree, seen) + if Entered(tree, p) then {p} else {};
  }

  method Pick(tree: Tree, ghost seen: set<Path>, p: Path, ghost sources: seq<Path>, ghost pending: seq<Path>,
              oldSources: seq<Path>, oldPending: seq<Path>) returns (moreSources: seq<Path>, morePending: seq<Path>)
    requires p in tree && p != [] && p !in seen && Picking(tree, seen, sources, pending, oldSources, oldPending)
    ensures Picking(tree, seen + {p}, sources, pending, moreSources, morePending)
  {
    hide Source, Entered, SourcesAmong, EnteredAmong;
    AmongMore(tree, seen, p);
    KindsApart(tree, p);
    moreSources, morePending := oldSources, oldPending;
    if Listable(tree, p) {
      if Entered(tree, p) {
        morePending := morePending + [p];
      }
    } else if Source(tree, p) {
      moreSources := moreSources + [p];
    }
  }

  lemma KindsApart(tree: Tree, p: Path)
    ensures Entered(tree, p) ==> Listable(tree, p)
    ensures Source(tree, p) ==> !Listable(tree, p)
  {
  }

  lemma NothingPicked(tree: Tree, sources: seq<Path>, pending: seq<Path>)
    ensures Picking(tree, {}, sources, pending, sources, pending)
  {
    assert SourcesAmong(tree, {}) == {} && EnteredAmong(tree, {}) == {};
  }

  method PickFrom(tree: Tree, listing: set<Path>, sources: seq<Path>, pending: seq<Path>)
    returns (moreSources: seq<Path>, morePending: seq<Path>)
    requires forall p :: p in listing ==> p in tree && p != []
    ensures Picking(tree, listing, sources, pending, moreSources, morePending)
  {
    hide Picking;
    moreSources, morePending := sources, pending;
    var rest := listing;
    ghost var seen: set<Path> := {};
    NothingPicked(tree, sources, pending);
    while rest != {}
      invariant seen + rest == listing && seen !! rest
      invariant Picking(tree, seen, sources, pending, moreSources, morePending)
    {
      var p :| p in rest;  // a directory lists its entries in any order
      moreSources, morePending := Pick(tree, seen, p, sources, pending, moreSources, morePending);
      rest, seen := rest - {p}, seen + {p};
    }
    assert seen == listing;
  }

  lemma SearchStarts(tree: Tree)
    ensures Searching(tree, [], [[]], {})
  {
    assert SourcesIn(tree, {}) == {} && DirectoriesIn(tree, {}) - {} == {[]};
  }

  lemma PendingIsNew(tree: Tree, pending: seq<Path>, done: set<Path>)
    requires pending != [] && multiset(pending) == multiset(DirectoriesIn(tree, done) - done)
    ensures pending[|pending| - 1] in DirectoriesIn(tree, done) - done
    ensures pending[|pending| - 1] in tree.Keys + {[]}
  {
    PopLast(pending);
    assert pending[|pending| - 1] in multiset(DirectoriesIn(tree, done) - done);
  }

  /** Listing one more directory adds exactly its own entries. */
  lemma OneMoreListed(tree: Tree, done: set<Path>, dir: Path)
    requires done <= DirectoriesIn(tree, done) && dir in DirectoriesIn(tree, done) - done
    ensures var found := EnteredAmong(tree, Children(tree, dir));
            var dirs, after := DirectoriesIn(tree, done), done + {dir};
            && multiset(SourcesIn(tree, after)) ==
               multiset(SourcesIn(tree, done)) + multiset(SourcesAmong(tree, Children(tree, dir)))
            && DirectoriesIn(tree, after) - after == (dirs - done - {dir}) + found
            && (dirs - done - {dir}) !! found && after <= DirectoriesIn(tree, after)
  {
    hide Source, Entered;
    var found, sources := EnteredAmong(tree, Children(tree, dir)), SourcesAmong(tree, Children(tree, dir));
    assert ChildrenOf(tree, done + {dir}) == ChildrenOf(tree, done) + Children(tree, dir);
    assert SourcesIn(tree, done + {dir}) == SourcesIn(tree, done) + sources;
    DisjointSum(SourcesIn(tree, done), sources);
    forall d | d in found ensures d !in DirectoriesIn(tree, done) && d != dir && d !in done {
      assert |d| == |dir| + 1;
    }
  }

  lemma SearchNext(tree: Tree, sources: seq<Path>, pending: seq<Path>, done: set<Path>, moreSources: seq<Path>,
                   morePending: seq<Path>)
    requires pending != [] && Searching(tree, sources, pending, done)
    requires Picking(tree, Children(tree, pending[|pending| - 1]), sources, pending[..|pending| - 1], moreSources, morePending)
    ensures pending[|pending| - 1] !in done && pending[|pending| - 1] in tree.Keys + {[]}
    ensures Searching(tree, moreSources, morePending, done + {pending[|pending| - 1]})
  {
    hide SourcesIn, DirectoriesIn, SourcesAmong, EnteredAmong, Children;
    var dir := pending[|pending| - 1];
    PopLast(pending);
    PendingIsNew(tree, pending, done);
    OneMoreListed(tree, done, dir);
    MoveFrontier(multiset(pending[..|pending| - 1]), dir, DirectoriesIn(tree, done) - done,
                 EnteredAmong(tree, Children(tree, dir)));
  }

  /** Once nothing is pending, exactly the reachable directories have been listed. */
  lemma {:induction false} ReachedIsDone(tree: Tree, done: set<Path>, p: Path)
    requires WellFormed(tree) && DirectoriesIn(tree, done) <= done
    requires p == [] || (p in tree && Entered(tree, p) && Reachable(p))
    ensures p in done
    decreases |p|
  {
    if p != [] {
      var q := Parent(p);
      if q != [] {
        assert Listable(tree, q) && FileName(q) == p[|p| - 2];
        assert forall k :: 0 <= k < |q| - 1 ==> q[k] == p[k];
      }
      ReachedIsDone(tree, done, q);
      assert p in ChildrenOf(tree, done);
    }
  }

  lemma {:induction false} DoneIsReached(tree: Tree, done: set<Path>, p: Path)
    requires done <= DirectoriesIn(tree, done) && p in done
    ensures Reachable(p) && (p != [] ==> FileName(p) !in EXCLUDED_DIRECTORIES)
    decreases |p|
  {
    if p != [] {
      assert p in ChildrenOf(tree, done);
      DoneIsReached(tree, done, Parent(p));
      ChildReachable(p);
    }
  }

  /** What stands in a reachable directory is reachable. */
  lemma ChildReachable(p: Path)
    requires p != []
    ensures Reachable(p) <==> Reachable(Parent(p)) && (|p| > 1 ==> FileName(Parent(p)) !in EXCLUDED_DIRECTORIES)
  {
    var q := Parent(p);
    assert forall k :: 0 <= k < |p| - 1 ==> q[k] == p[k];
  }

  lemma SearchEnds(tree: Tree, sources: seq<Path>, done: set<Path>)
    requires WellFormed(tree) && Searching(tree, sources, [], done)
    ensures multiset(sources) == multiset(Sources(tree))
  {
    hide Source;
    NothingLeft(DirectoriesIn(tree, done), done);
    forall p ensures p in SourcesIn(tree, done) <==> p in Sources(tree) {
      if p in SourcesIn(tree, done) {
        DoneIsReached(tree, done, Parent(p));
        ChildReachable(p);
      }
      if p in Sources(tree) {
        ParentIsDone(tree, done, p);
      }
    }
    assert SourcesIn(tree, done) == Sources(tree);
  }

  lemma ParentIsDone(tree: Tree, done: set<Path>, p: Path)
    requires WellFormed(tree) && DirectoriesIn(tree, done) <= done && p in tree && Reachable(p)
    ensures p != [] && Parent(p) in done
  {
    ChildReachable(p);
    if |p| > 1 {
      assert Listable(tree, Parent(p));
    }
    ReachedIsDone(tree, done, Parent(p));
  }

  /** All sources outside excluded directories, each once, in order, whatever order directories list their entries in. */
  method FindRustSources(tree: Tree) returns (sources: seq<Path>)
    requires WellFormed(tree)
    ensures Enumerates(sources, Sources(tree))
  {
    hide WellFormed, Searching, Picking, Sources, Sorted, Insert, SortBy;
    var pending: seq<Path> := [[]];
    sources := [];
    ghost var done: set<Path> := {};
    SearchStarts(tree);
    while pending != []
      invariant Searching(tree, sources, pending, done)
      decreases (tree.Keys + {[]}) - done
    {
      var dir := pending[|pending| - 1];
      var moreSources, morePending := PickFrom(tree, Children(tree, dir), sources, pending[..|pending| - 1]);
      SearchNext(tree, sources, pending, done, moreSources, morePending);
      sources, pending, done := moreSources, morePending, done + {dir};
    }
    SearchEnds(tree, sources, done);
    SortBySorts(sources, PathKey);
    sources := SortBy(sources, PathKey);
  }
}
