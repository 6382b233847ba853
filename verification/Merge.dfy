/**
 Merging index fragments: ids that occur in several fragments are renamed, references follow, source
 facts are deduplicated, and the result is brought into canonical order and checked.
 */
module Merge {
  import opened Wrappers
  import opened Ordering
  import opened IndexDocs

  const GENERATOR := "xtask index merge v1"

  datatype Fragment = Fragment(repo: string, doc: Doc)
  datatype MergeError = NoFragments | Conflict | Invalid

  // ---- collision counts and id maps ----

  const FAMILIES := [Subjects, Anchors, Surfaces, Specimens, Drafts, Features, Routes]

  type CollisionCounts = map<(Family, Id), nat>

  /** Concatenates what each element contributes. */
  function Gather<F, T>(fs: seq<F>, get: F -> seq<T>): seq<T> {
    if fs == [] then [] else Gather(fs[..|fs| - 1], get) + get(fs[|fs| - 1])
  }

  /** How many records of a family carry an id, over all fragments. */
  ghost function Count(fs: seq<Fragment>, family: Family, id: Id): nat {
    multiset(Gather(fs, (f: Fragment) => Ids(f.doc, family)))[id]
  }

  function Tally(counts: CollisionCounts, family: Family, id: Id): nat {
    if (family, id) in counts then counts[(family, id)] else 0
  }

  method Bump(counts: CollisionCounts, family: Family, ids: seq<Id>) returns (r: CollisionCounts)
    ensures forall f, id :: Tally(r, f, id) == Tally(counts, f, id) + if f == family then multiset(ids)[id] else 0
  {
    r := counts;
    for i := 0 to |ids|
      invariant forall f, id :: Tally(r, f, id) == Tally(counts, f, id) + if f == family then multiset(ids[..i])[id] else 0
    {
      r := r[(family, ids[i]) := Tally(r, family, ids[i]) + 1];
      assert ids[..i + 1] == ids[..i] + [ids[i]];
    }
    assert ids[..|ids|] == ids;
  }

  method CountDoc(counts: CollisionCounts, doc: Doc) returns (r: CollisionCounts)
    ensures forall f, id :: Tally(r, f, id) == Tally(counts, f, id) + multiset(Ids(doc, f))[id]
  {
    hide Ids, Tally;
    r := counts;
    for k := 0 to |FAMILIES|
      invariant forall f, id :: Tally(r, f, id) ==
                                Tally(counts, f, id) + if f in FAMILIES[..k] then multiset(Ids(doc, f))[id] else 0
    {
      r := Bump(r, FAMILIES[k], Ids(doc, FAMILIES[k]));
      assert FAMILIES[..k + 1] == FAMILIES[..k] + [FAMILIES[k]];
      assert FAMILIES[k] !in FAMILIES[..k];
    }
    forall f ensures f in FAMILIES[..|FAMILIES|] { FamilyListed(f); }
  }

  method CountCollisions(fs: seq<Fragment>) returns (counts: CollisionCounts)
    ensures forall f, id :: Tally(counts, f, id) == Count(fs, f, id)
  {
    hide Ids;
    counts := map[];
    for i := 0 to |fs|
      invariant forall f, id :: Tally(counts, f, id) == Count(fs[..i], f, id)
    {
      counts := CountDoc(counts, fs[i].doc);
      assert fs[..i + 1][..i] == fs[..i];
    }
    assert fs[..|fs|] == fs;
  }

  lemma FamilyListed(f: Family)
    ensures f in FAMILIES && FAMILIES[..|FAMILIES|] == FAMILIES
  {
    match f
    case Subjects => assert FAMILIES[0] == f;
    case Anchors => assert FAMILIES[1] == f;
    case Surfaces => assert FAMILIES[2] == f;
    case Specimens => assert FAMILIES[3] == f;
    case Drafts => assert FAMILIES[4] == f;
    case Features => assert FAMILIES[5] == f;
    case Routes => assert FAMILIES[6] == f;
  }

  function Local(repo: string, id: Id): Id {
    "local/" + repo + "/" + id
  }

  function MapIds(repo: string, count: Id -> nat, ids: seq<Id>): map<Id, Id> {
    map id | id in ids :: if count(id) > 1 then Local(repo, id) else id
  }

  function MapsFor(fragment: Fragment, count: (Family, Id) -> nat): IdMaps {
    var ids := (family: Family) => MapIds(fragment.repo, (id: Id) => count(family, id), Ids(fragment.doc, family));
    IdMaps(ids(Subjects), ids(Anchors), ids(Surfaces), ids(Specimens), ids(Drafts), ids(Features), ids(Routes))
  }

  // ---- source facts ----

  /** No two facts with the same identity differ. */
  ghost predicate Consistent<T(!new)>(facts: seq<T>, identity: T -> Key) {
    forall a, b :: a in facts && b in facts && identity(a) == identity(b) ==> a == b
  }

  /** Keeps the first of every group of equal facts. */
  function FirstCopies<T(==)>(facts: seq<T>): seq<T> {
    if facts == [] then []
    else
      var init, last := FirstCopies(facts[..|facts| - 1]), facts[|facts| - 1];
      if last in init then init else init + [last]
  }

  lemma {:induction false} FirstCopiesKeep<T(!new)>(facts: seq<T>, identity: T -> Key)
    requires Consistent(facts, identity)
    ensures forall x :: x in FirstCopies(facts) <==> x in facts
    ensures UniqueKeys(FirstCopies(facts), identity)
  {
    if facts != [] {
      var init, last := facts[..|facts| - 1], facts[|facts| - 1];
      assert facts == init + [last];
      FirstCopiesKeep(init, identity);
      var kept := FirstCopies(init);
      assert forall x :: x in kept ==> x in facts;
      if last !in kept {
        assert forall k :: 0 <= k < |kept| ==> kept[k] in kept;
      }
    }
  }

  /** One more fact: a copy of an earlier one is dropped, and only a differing copy breaks consistency. */
  lemma FactStep<T(!new)>(seen: seq<T>, fact: T, identity: T -> Key)
    requires Consistent(seen, identity)
    ensures Consistent(seen + [fact], identity) <==>
            forall x :: x in FirstCopies(seen) && identity(x) == identity(fact) ==> x == fact
    ensures fact in FirstCopies(seen) ==> Consistent(seen + [fact], identity)
    ensures FirstCopies(seen + [fact]) == if fact in FirstCopies(seen) then FirstCopies(seen) else FirstCopies(seen) + [fact]
  {
    FirstCopiesKeep(seen, identity);
    assert (seen + [fact])[..|seen|] == seen;
    assert forall x :: x in seen + [fact] <==> x in seen || x == fact;
  }

  lemma ConsistentPrefix<T(!new)>(facts: seq<T>, n: nat, identity: T -> Key)
    requires n <= |facts| && Consistent(facts, identity)
    ensures Consistent(facts[..n], identity)
  {
  }

  /** Appends the facts not seen before; a copy that differs from the one seen is a conflict. */
  method MergeFacts<T(==, !new)>(merged: seq<T>, facts: seq<T>, identity: T -> Key, ghost all: seq<T>)
    returns (r: Result<seq<T>, MergeError>)
    requires Consistent(all, identity) && merged == FirstCopies(all)
    ensures r.Success? <==> Consistent(all + facts, identity)
    ensures if r.Success? then r.value == FirstCopies(all + facts) else r.error == Conflict
  {
    hide Consistent, FirstCopies;
    var out := merged;
    assert all + facts[..0] == all && all + facts[..|facts|] == all + facts;
    for i := 0 to |facts|
      invariant Consistent(all + facts[..i], identity) && out == FirstCopies(all + facts[..i])
    {
      var fact := facts[i];
      FactStep(all + facts[..i], fact, identity);
      assert all + facts[..i + 1] == all + facts[..i] + [fact];
      var copy := Find(out, identity, identity(fact));
      if copy.None? {
        out := out + [fact];
      } else if copy.value != fact {
        assert (all + facts)[..|all| + i + 1] == all + facts[..i + 1];
        if Consistent(all + facts, identity) { ConsistentPrefix(all + facts, |all| + i + 1, identity); }
        return Failure(Conflict);
      }
    }
    return Success(out);
  }

  method Find<T>(s: seq<T>, identity: T -> Key, key: Key) returns (r: Option<T>)
    ensures r.None? <==> forall x :: x in s ==> identity(x) != key
    ensures r.Some? ==> r.value in s && identity(r.value) == key
  {
    for i := 0 to |s|
      invariant forall k :: 0 <= k < i ==> identity(s[k]) != key
    {
      if identity(s[i]) == key { return Some(s[i]); }
    }
    return None;
  }

  // ---- the merge ----

  /** The renamed document of one fragment, in the context of all of them. */
  ghost function Renamed(fs: seq<Fragment>, f: Fragment): (r: Doc)
    ensures forall family :: |Ids(r, family)| == |Ids(f.doc, family)|
  {
    RewriteDoc(f.doc, MapsFor(f, (family, id) => Count(fs, family, id)))
  }

  /** Every record of every fragment, in order of arrival; the facts of the first `n` fragments. */
  ghost function Declarations(fs: seq<Fragment>, n: nat): seq<Declaration>
    requires n <= |fs|
  {
    Gather(fs[..n], (f: Fragment) => Renamed(fs, f).declarations)
  }

  ghost function Relations(fs: seq<Fragment>, n: nat): seq<Relation>
    requires n <= |fs|
  {
    Gather(fs[..n], (f: Fragment) => Renamed(fs, f).relations)
  }

  ghost function Collected(fs: seq<Fragment>, n: nat): Doc
    requires n <= |fs|
  {
    var part := fs[..n];
    Doc(GENERATOR,
        if exists f :: f in fs && f.doc.visibility == PrivateLocal then PrivateLocal else Public,
        [],
        Gather(part, (f: Fragment) => Renamed(fs, f).subjects),
        Gather(part, (f: Fragment) => Renamed(fs, f).anchors),
        FirstCopies(Declarations(fs, n)),
        FirstCopies(Relations(fs, n)),
        Gather(part, (f: Fragment) => Renamed(fs, f).surfaces),
        Gather(part, (f: Fragment) => Renamed(fs, f).specimens),
        Gather(part, (f: Fragment) => Renamed(fs, f).drafts),
        Gather(part, (f: Fragment) => Renamed(fs, f).features),
        Gather(part, (f: Fragment) => Renamed(fs, f).routes),
        Gather(part, (f: Fragment) => Renamed(fs, f).edges))
  }

  ghost predicate FactsAgree(fs: seq<Fragment>, n: nat)
    requires n <= |fs|
  {
    Consistent(Declarations(fs, n), DeclarationIdentity) && Consistent(Relations(fs, n), RelationIdentity)
  }

  /** What a merge results in, given the check every index document has to pass. */
  ghost function Merged(fs: seq<Fragment>, check: Doc -> bool): Result<Doc, MergeError> {
    if fs == [] then Failure(NoFragments)
    else if !FactsAgree(fs, |fs|) then Failure(Conflict)
    else if !check(SortDoc(Collected(fs, |fs|))) then Failure(Invalid)
    else Success(SortDoc(Collected(fs, |fs|)))
  }

  lemma MapIdsSame(repo: string, c: Id -> nat, d: Id -> nat, ids: seq<Id>)
    requires forall id :: c(id) == d(id)
    ensures MapIds(repo, c, ids) == MapIds(repo, d, ids)
  {
  }

  lemma MapsForSame(f: Fragment, c: (Family, Id) -> nat, d: (Family, Id) -> nat)
    requires forall family, id :: c(family, id) == d(family, id)
    ensures MapsFor(f, c) == MapsFor(f, d)
  {
    hide MapIds, Ids;
    forall family ensures MapIds(f.repo, (id: Id) => c(family, id), Ids(f.doc, family)) ==
                          MapIds(f.repo, (id: Id) => d(family, id), Ids(f.doc, family))
    {
      MapIdsSame(f.repo, (id: Id) => c(family, id), (id: Id) => d(family, id), Ids(f.doc, family));
    }
  }

  lemma MapsForCounts(fs: seq<Fragment>, f: Fragment, counts: CollisionCounts)
    requires forall family, id :: Tally(counts, family, id) == Count(fs, family, id)
    ensures RewriteDoc(f.doc, MapsFor(f, (family, id) => Tally(counts, family, id))) == Renamed(fs, f)
  {
    hide RewriteDoc;
    MapsForSame(f, (family, id) => Tally(counts, family, id), (family, id) => Count(fs, family, id));
  }

  /** Moves the records of one renamed document behind those merged so far. */
  function Append(d: Doc, more: Doc, declarations: seq<Declaration>, relations: seq<Relation>): Doc {
    d.(subjects := d.subjects + more.subjects, anchors := d.anchors + more.anchors,
       surfaces := d.surfaces + more.surfaces, specimens := d.specimens + more.specimens,
       drafts := d.drafts + more.drafts, features := d.features + more.features,
       routes := d.routes + more.routes, edges := d.edges + more.edges,
       declarations := declarations, relations := relations)
  }

  lemma CollectedStep(fs: seq<Fragment>, n: nat)
    requires n < |fs|
    ensures Declarations(fs, n + 1) == Declarations(fs, n) + Renamed(fs, fs[n]).declarations
    ensures Relations(fs, n + 1) == Relations(fs, n) + Renamed(fs, fs[n]).relations
    ensures Collected(fs, n + 1) ==
            Append(Collected(fs, n), Renamed(fs, fs[n]), FirstCopies(Declarations(fs, n + 1)),
                   FirstCopies(Relations(fs, n + 1)))
  {
    assert fs[..n + 1][..n] == fs[..n];
  }

  lemma {:induction false} FactsAgreePrefix(fs: seq<Fragment>, n: nat)
    requires n <= |fs| && FactsAgree(fs, |fs|)
    ensures FactsAgree(fs, n)
    decreases |fs| - n
  {
    if n < |fs| {
      FactsAgreePrefix(fs, n + 1);
      CollectedStep(fs, n);
      assert forall d :: d in Declarations(fs, n) ==> d in Declarations(fs, n + 1);
      assert forall r :: r in Relations(fs, n) ==> r in Relations(fs, n + 1);
    }
  }

  /** Renames one fragment and takes its records over. */
  method MergeOne(fs: seq<Fragment>, i: nat, counts: CollisionCounts, merged: Doc) returns (r: Result<Doc, MergeError>)
    requires i < |fs| && FactsAgree(fs, i) && merged == Collected(fs, i)
    requires forall family, id :: Tally(counts, family, id) == Count(fs, family, id)
    ensures r.Success? <==> FactsAgree(fs, i + 1)
    ensures if r.Success? then r.value == Collected(fs, i + 1) else r.error == Conflict
  {
    hide RewriteDoc, Renamed, MapsFor, Declarations, Relations, FirstCopies, Append, Consistent;
    var doc := RewriteDoc(fs[i].doc, MapsFor(fs[i], (family, id) => Tally(counts, family, id)));
    MapsForCounts(fs, fs[i], counts);
    CollectedStep(fs, i);
    var declarations :- MergeFacts(merged.declarations, doc.declarations, DeclarationIdentity, Declarations(fs, i));
    var relations :- MergeFacts(merged.relations, doc.relations, RelationIdentity, Relations(fs, i));
    return Success(Append(merged, doc, declarations, relations));
  }

  method MergeFragments(fs: seq<Fragment>, check: Doc -> bool) returns (r: Result<Doc, MergeError>)
    ensures r == Merged(fs, check)
  {
    if fs == [] {
      return Failure(NoFragments);
    }
    hide Collected, FactsAgree, SortDoc, Count, Tally;
    var counts := CountCollisions(fs);
    var visibility := if exists f | f in fs :: f.doc.visibility == PrivateLocal then PrivateLocal else Public;
    var merged := Doc(GENERATOR, visibility, [], [], [], [], [], [], [], [], [], [], []);
    for i := 0 to |fs|
      invariant FactsAgree(fs, i) && merged == Collected(fs, i)
    {
      if FactsAgree(fs, |fs|) { FactsAgreePrefix(fs, i + 1); }
      merged :- MergeOne(fs, i, counts, merged);
    }
    merged := SortDoc(merged);
    if !check(merged) {
      return Failure(Invalid);
    }
    return Success(merged);
  }
}
