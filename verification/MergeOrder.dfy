/** A merge depends neither on the order of its fragments nor, once done, on being done again. */
module MergeOrder {
  import opened Ordering
  import opened IndexDocs
  import opened Merge
  import opened MergeLaws

  /** The document check rejects a repeated id. */
  ghost predicate RejectsRepeatedIds(check: Doc -> bool) {
    forall d :: check(d) ==> UniqueIds(d)
  }

  // ---- permuting what is gathered ----

  lemma {:induction false} GatherConcat<F, T>(a: seq<F>, b: seq<F>, get: F -> seq<T>)
    ensures Gather(a + b, get) == Gather(a, get) + Gather(b, get)
  {
    if b == [] {
      assert a + b == a;
    } else {
      GatherConcat(a, b[..|b| - 1], get);
      assert (a + b)[..|a + b| - 1] == a + b[..|b| - 1];
    }
  }

  lemma RemoveAt<T>(s: seq<T>, i: nat)
    requires i < |s|
    ensures multiset(s[..i] + s[i + 1..]) == multiset(s) - multiset{s[i]}
  {
    assert s == s[..i] + [s[i]] + s[i + 1..];
  }

  lemma GatherRemove<F, T>(a: seq<F>, i: nat, get: F -> seq<T>)
    requires i < |a|
    ensures multiset(Gather(a, get)) == multiset(Gather(a[..i] + a[i + 1..], get)) + multiset(get(a[i]))
  {
    hide Gather;
    var p, x, q := a[..i], [a[i]], a[i + 1..];
    assert a == p + (x + q);
    GatherOne(a[i], get);
    GatherConcat(p, x + q, get);
    GatherConcat(x, q, get);
    GatherConcat(p, q, get);
  }

  lemma GatherOne<F, T>(x: F, get: F -> seq<T>)
    ensures Gather([x], get) == get(x)
  {
    assert [x][..0] == [];
  }

  lemma {:induction false} GatherPermutes<F(!new), T>(a: seq<F>, b: seq<F>, g: F -> seq<T>, h: F -> seq<T>)
    requires multiset(a) == multiset(b) && forall x :: g(x) == h(x)
    ensures multiset(Gather(a, g)) == multiset(Gather(b, h))
    decreases |a|
  {
    assert |multiset(a)| == |a| && |multiset(b)| == |b|;
    if a != [] {
      var n := |a| - 1;
      InMultiset(a, b, a[n]);
      var j :| 0 <= j < |b| && b[j] == a[n];
      RemoveAt(a, n);
      RemoveAt(b, j);
      assert a[..n] + a[n + 1..] == a[..n];
      GatherPermutes(a[..n], b[..j] + b[j + 1..], g, h);
      GatherRemove(b, j, h);
    }
  }

  lemma CountPermutes(fs: seq<Fragment>, gs: seq<Fragment>, family: Family, id: Id)
    requires multiset(fs) == multiset(gs)
    ensures Count(fs, family, id) == Count(gs, family, id)
  {
    hide Ids;
    var get := (f: Fragment) => Ids(f.doc, family);
    GatherPermutes(fs, gs, get, get);
  }

  lemma RenamedPermutes(fs: seq<Fragment>, gs: seq<Fragment>, f: Fragment)
    requires multiset(fs) == multiset(gs)
    ensures Renamed(fs, f) == Renamed(gs, f)
  {
    hide RewriteDoc, Count, MapsFor;
    forall family, id ensures Count(fs, family, id) == Count(gs, family, id) {
      CountPermutes(fs, gs, family, id);
    }
    MapsForSame(f, (family, id) => Count(fs, family, id), (family, id) => Count(gs, family, id));
  }

  /** Two collections of records that differ only in the order of arrival. */
  ghost predicate SameRecords(a: Doc, b: Doc) {
    && a.generatedBy == b.generatedBy && a.visibility == b.visibility && a.sourceUnits == b.sourceUnits
    && multiset(a.subjects) == multiset(b.subjects)
    && multiset(a.anchors) == multiset(b.anchors)
    && multiset(a.surfaces) == multiset(b.surfaces)
    && multiset(a.specimens) == multiset(b.specimens)
    && multiset(a.drafts) == multiset(b.drafts)
    && multiset(a.features) == multiset(b.features)
    && multiset(a.routes) == multiset(b.routes)
    && multiset(a.edges) == multiset(b.edges)
    && (forall d :: d in a.declarations <==> d in b.declarations)
    && (forall r :: r in a.relations <==> r in b.relations)
    && UniqueKeys(a.declarations, DeclarationIdentity) && UniqueKeys(b.declarations, DeclarationIdentity)
    && UniqueKeys(a.relations, RelationIdentity) && UniqueKeys(b.relations, RelationIdentity)
  }

  lemma FactsPermute(fs: seq<Fragment>, gs: seq<Fragment>)
    requires multiset(fs) == multiset(gs)
    ensures multiset(Declarations(fs, |fs|)) == multiset(Declarations(gs, |gs|))
    ensures multiset(Relations(fs, |fs|)) == multiset(Relations(gs, |gs|))
  {
    hide Renamed;
    assert fs[..|fs|] == fs && gs[..|gs|] == gs;
    forall f: Fragment { RenamedPermutes(fs, gs, f); }
    GatherPermutes(fs, gs, (f: Fragment) => Renamed(fs, f).declarations, (f: Fragment) => Renamed(gs, f).declarations);
    GatherPermutes(fs, gs, (f: Fragment) => Renamed(fs, f).relations, (f: Fragment) => Renamed(gs, f).relations);
  }

  lemma ConsistentPermutes<T(!new)>(a: seq<T>, b: seq<T>, identity: T -> Key)
    requires multiset(a) == multiset(b) && Consistent(a, identity)
    ensures Consistent(b, identity)
    ensures forall x :: x in FirstCopies(a) <==> x in FirstCopies(b)
    ensures UniqueKeys(FirstCopies(a), identity) && UniqueKeys(FirstCopies(b), identity)
  {
    forall x ensures x in a <==> x in b { InMultiset(a, b, x); }
    FirstCopiesKeep(a, identity);
    FirstCopiesKeep(b, identity);
  }

  lemma CollectedPermutes(fs: seq<Fragment>, gs: seq<Fragment>)
    requires multiset(fs) == multiset(gs) && FactsAgree(fs, |fs|)
    ensures FactsAgree(gs, |gs|) && SameRecords(Collected(fs, |fs|), Collected(gs, |gs|))
  {
    hide Renamed, Declarations, Relations, FirstCopies, Gather, Consistent;
    FactsPermute(fs, gs);
    ConsistentPermutes(Declarations(fs, |fs|), Declarations(gs, |gs|), DeclarationIdentity);
    ConsistentPermutes(Relations(fs, |fs|), Relations(gs, |gs|), RelationIdentity);
    RecordsPermute(fs, gs);
    forall f ensures f in fs <==> f in gs { InMultiset(fs, gs, f); }
  }

  lemma RecordsPermute(fs: seq<Fragment>, gs: seq<Fragment>)
    requires multiset(fs) == multiset(gs)
    ensures var a, b := Collected(fs, |fs|), Collected(gs, |gs|);
            && multiset(a.subjects) == multiset(b.subjects) && multiset(a.anchors) == multiset(b.anchors)
            && multiset(a.surfaces) == multiset(b.surfaces) && multiset(a.specimens) == multiset(b.specimens)
            && multiset(a.drafts) == multiset(b.drafts) && multiset(a.features) == multiset(b.features)
            && multiset(a.routes) == multiset(b.routes) && multiset(a.edges) == multiset(b.edges)
  {
    hide Renamed, Gather, FirstCopies;
    assert fs[..|fs|] == fs && gs[..|gs|] == gs;
    forall f: Fragment { RenamedPermutes(fs, gs, f); }
    GatherPermutes(fs, gs, (f: Fragment) => Renamed(fs, f).subjects, (f: Fragment) => Renamed(gs, f).subjects);
    GatherPermutes(fs, gs, (f: Fragment) => Renamed(fs, f).anchors, (f: Fragment) => Renamed(gs, f).anchors);
    GatherPermutes(fs, gs, (f: Fragment) => Renamed(fs, f).surfaces, (f: Fragment) => Renamed(gs, f).surfaces);
    GatherPermutes(fs, gs, (f: Fragment) => Renamed(fs, f).specimens, (f: Fragment) => Renamed(gs, f).specimens);
    GatherPermutes(fs, gs, (f: Fragment) => Renamed(fs, f).drafts, (f: Fragment) => Renamed(gs, f).drafts);
    GatherPermutes(fs, gs, (f: Fragment) => Renamed(fs, f).features, (f: Fragment) => Renamed(gs, f).features);
    GatherPermutes(fs, gs, (f: Fragment) => Renamed(fs, f).routes, (f: Fragment) => Renamed(gs, f).routes);
    GatherPermutes(fs, gs, (f: Fragment) => Renamed(fs, f).edges, (f: Fragment) => Renamed(gs, f).edges);
  }

  // ---- sorting away the order of arrival ----

  /** A family sorts to the same sequence from any order of arrival, provided its ids are unique. */
  lemma FamilyCanonical<T(!new)>(a: seq<T>, b: seq<T>, key: T -> Key)
    requires multiset(a) == multiset(b)
    ensures UniqueKeys(SortBy(a, key), key) <==> UniqueKeys(a, key)
    ensures UniqueKeys(a, key) ==> UniqueKeys(b, key) && SortBy(a, key) == SortBy(b, key)
  {
    SortBySorts(a, key);
    if UniqueKeys(a, key) {
      UniquePermutes(a, SortBy(a, key), key);
      UniquePermutes(a, b, key);
      SortByCanonical(a, b, key);
    }
    if UniqueKeys(SortBy(a, key), key) {
      UniquePermutes(SortBy(a, key), a, key);
    }
  }

  lemma FactsCanonical<T(!new)>(a: seq<T>, b: seq<T>, identity: T -> Key, key: T -> Key)
    requires forall x :: x in a <==> x in b
    requires UniqueKeys(a, identity) && UniqueKeys(b, identity)
    requires forall x, y :: key(x) == key(y) ==> x == y
    ensures SortBy(a, key) == SortBy(b, key)
  {
    forall x ensures multiset(a)[x] == multiset(b)[x] {
      UniqueCount(a, identity, x);
      UniqueCount(b, identity, x);
    }
    SortByCanonical(a, b, key);
  }

  lemma NormalizedUnique(features: seq<Feature>)
    ensures UniqueKeys(Each(features, NormalizeFeature), FeatureKey) <==> UniqueKeys(features, FeatureKey)
  {
    var out := Each(features, NormalizeFeature);
    assert forall i :: 0 <= i < |features| ==> FeatureKey(out[i]) == FeatureKey(features[i]);
  }

  lemma SortedUniqueIds(a: Doc)
    ensures UniqueIds(SortDoc(a)) <==> UniqueIds(a)
  {
    FamilyCanonical(a.subjects, a.subjects, SubjectKey);
    FamilyCanonical(a.anchors, a.anchors, AnchorKey);
    FamilyCanonical(a.surfaces, a.surfaces, SurfaceKey);
    FamilyCanonical(a.specimens, a.specimens, SpecimenKey);
    FamilyCanonical(a.drafts, a.drafts, FeatureKey);
    FamilyCanonical(a.features, a.features, FeatureKey);
    FamilyCanonical(a.routes, a.routes, RouteKey);
    NormalizedUnique(SortBy(a.drafts, FeatureKey));
    NormalizedUnique(SortBy(a.features, FeatureKey));
    hide UniqueKeys, SortBy, Each;
  }

  lemma SortCanonical(a: Doc, b: Doc)
    requires SameRecords(a, b) && UniqueIds(a)
    ensures SortDoc(a) == SortDoc(b)
  {
    FamilyCanonical(a.subjects, b.subjects, SubjectKey);
    FamilyCanonical(a.anchors, b.anchors, AnchorKey);
    FamilyCanonical(a.surfaces, b.surfaces, SurfaceKey);
    FamilyCanonical(a.specimens, b.specimens, SpecimenKey);
    FamilyCanonical(a.drafts, b.drafts, FeatureKey);
    FamilyCanonical(a.features, b.features, FeatureKey);
    FamilyCanonical(a.routes, b.routes, RouteKey);
    FactsCanonical(a.declarations, b.declarations, DeclarationIdentity, DeclarationKey);
    FactsCanonical(a.relations, b.relations, RelationIdentity, RelationKey);
    SortByCanonical(a.edges, b.edges, EdgeKey);
    hide UniqueKeys, SortBy, Each, Dedup;
  }

  lemma OneOrderForTheOther(fs: seq<Fragment>, gs: seq<Fragment>, check: Doc -> bool)
    requires multiset(fs) == multiset(gs) && RejectsRepeatedIds(check) && Merged(fs, check).Success?
    ensures Merged(gs, check) == Merged(fs, check)
  {
    assert |multiset(fs)| == |fs| && |multiset(gs)| == |gs|;
    CollectedPermutes(fs, gs);
    SortedUniqueIds(Collected(fs, |fs|));
    SortCanonical(Collected(fs, |fs|), Collected(gs, |gs|));
    hide Collected, FactsAgree, SortDoc;
  }

  /** Any order of the fragments succeeds when one does, with the same document. */
  lemma OrderIndependent(fs: seq<Fragment>, gs: seq<Fragment>, check: Doc -> bool)
    requires multiset(fs) == multiset(gs) && RejectsRepeatedIds(check)
    ensures Merged(fs, check).Success? <==> Merged(gs, check).Success?
    ensures Merged(fs, check).Success? ==> Merged(fs, check) == Merged(gs, check)
  {
    hide Merged;
    if Merged(fs, check).Success? { OneOrderForTheOther(fs, gs, check); }
    if Merged(gs, check).Success? { OneOrderForTheOther(gs, fs, check); }
  }

  // ---- merging again ----

  lemma FeatureIdentity(r: Feature, family: Family, maps: IdMaps)
    requires forall f, id :: maps.Map(f, id) == id
    ensures RewriteFeature(r, family, maps) == r
  {
  }

  lemma EdgeIdentity(e: Edge, maps: IdMaps)
    requires forall f, id :: maps.Map(f, id) == id
    ensures RewriteEdge(e, maps) == e
  {
    forall id ensures maps.MapAny(id) == id {
      assert maps.Map(Subjects, id) == id && maps.Map(Anchors, id) == id && maps.Map(Surfaces, id) == id;
      assert maps.Map(Specimens, id) == id && maps.Map(Features, id) == id && maps.Map(Routes, id) == id;
    }
  }

  /** Without a collision a document is taken over as it is. */
  lemma RewriteIdentity(doc: Doc, maps: IdMaps)
    requires forall f, id :: maps.Map(f, id) == id
    ensures RewriteDoc(doc, maps) == doc
  {
    forall r: Feature, f: Family ensures RewriteFeature(r, f, maps) == r { FeatureIdentity(r, f, maps); }
    forall e: Edge { EdgeIdentity(e, maps); }
    assert forall r: Route :: RewriteRoute(r, maps) == r;
    hide RewriteFeature, RewriteEdge, RewriteRoute;
    var out := RewriteDoc(doc, maps);
    assert out.subjects == doc.subjects && out.anchors == doc.anchors && out.declarations == doc.declarations;
    assert out.relations == doc.relations && out.surfaces == doc.surfaces && out.specimens == doc.specimens;
    assert out.drafts == doc.drafts && out.features == doc.features;
    assert out.routes == doc.routes && out.edges == doc.edges;
  }

  /** Fragments that share no id and repeat none are changed by the canonical order and by deduplication only. */
  lemma CollisionFree(fs: seq<Fragment>, f: Fragment)
    requires forall family, id :: Count(fs, family, id) <= 1
    ensures Renamed(fs, f) == f.doc
  {
    forall family, id ensures Maps(fs, f).Map(family, id) == id { MapsAre(fs, f, family, id); }
    RewriteIdentity(f.doc, Maps(fs, f));
  }

  lemma UniqueIdCounts(doc: Doc, family: Family, id: Id)
    requires UniqueIds(doc)
    ensures multiset(Ids(doc, family))[id] <= 1
  {
    assert forall i, j :: 0 <= i < j < |Ids(doc, family)| ==> Ids(doc, family)[i] != Ids(doc, family)[j];
    hide Ids;
    UniqueCount(Ids(doc, family), IdKey, id);
  }

  lemma {:induction false} FirstCopiesFixpoint<T>(facts: seq<T>, identity: T -> Key)
    requires UniqueKeys(facts, identity)
    ensures FirstCopies(facts) == facts
  {
    if facts != [] {
      var init, last := facts[..|facts| - 1], facts[|facts| - 1];
      FirstCopiesFixpoint(init, identity);
      assert forall k :: 0 <= k < |init| ==> identity(init[k]) != identity(last);
      assert facts == init + [last];
    }
  }

  /** A canonical document: the shape every successful merge has. */
  ghost predicate Canonical(d: Doc) {
    && d.generatedBy == GENERATOR && d.sourceUnits == []
    && UniqueIds(d) && UniqueKeys(d.declarations, DeclarationIdentity) && UniqueKeys(d.relations, RelationIdentity)
    && SortDoc(d) == d
  }

  lemma NormalizeTwice(r: Feature)
    ensures NormalizeFeature(NormalizeFeature(r)) == NormalizeFeature(r)
  {
    SortTwice(r.anchors, IdKey);
    SortTwice(r.surfaces, IdKey);
    SortTwice(r.specimens, IdKey);
    SortTwice(r.grammars, GrammarKey);
  }

  lemma SortTwice<T>(s: seq<T>, key: T -> Key)
    ensures SortBy(SortBy(s, key), key) == SortBy(s, key)
  {
    SortBySorts(s, key);
    SortByFixpoint(SortBy(s, key), key);
  }

  lemma FeaturesTwice(s: seq<Feature>)
    ensures var out := Each(SortBy(s, FeatureKey), NormalizeFeature);
            Each(SortBy(out, FeatureKey), NormalizeFeature) == out
  {
    var sorted := SortBy(s, FeatureKey);
    var out := Each(sorted, NormalizeFeature);
    SortBySorts(s, FeatureKey);
    assert Sorted(out, FeatureKey) by {
      assert forall i :: 0 <= i < |sorted| ==> FeatureKey(out[i]) == FeatureKey(sorted[i]);
    }
    SortByFixpoint(out, FeatureKey);
    forall x | x in out ensures NormalizeFeature(x) == x {
      var i :| 0 <= i < |sorted| && x == NormalizeFeature(sorted[i]);
      NormalizeTwice(sorted[i]);
    }
  }

  lemma EdgesTwice(edges: seq<Edge>)
    ensures var out := Dedup(SortBy(edges, EdgeKey)); Dedup(SortBy(out, EdgeKey)) == out
  {
    SortBySorts(edges, EdgeKey);
    DedupSorted(SortBy(edges, EdgeKey), EdgeKey);
    SortByFixpoint(Dedup(SortBy(edges, EdgeKey)), EdgeKey);
    DedupFixpoint(Dedup(SortBy(edges, EdgeKey)), EdgeKey);
  }

  lemma SortDocTwice(a: Doc)
    ensures SortDoc(SortDoc(a)) == SortDoc(a)
  {
    SortTwice(a.subjects, SubjectKey);
    SortTwice(a.anchors, AnchorKey);
    SortTwice(a.declarations, DeclarationKey);
    SortTwice(a.relations, RelationKey);
    SortTwice(a.surfaces, SurfaceKey);
    SortTwice(a.specimens, SpecimenKey);
    SortTwice(a.routes, RouteKey);
    FeaturesTwice(a.drafts);
    FeaturesTwice(a.features);
    EdgesTwice(a.edges);
    hide SortBy, Each, Dedup;
  }

  lemma MergedIsCanonical(fs: seq<Fragment>, check: Doc -> bool)
    requires RejectsRepeatedIds(check) && Merged(fs, check).Success?
    ensures Canonical(Merged(fs, check).value)
  {
    var a := Collected(fs, |fs|);
    SortDocTwice(a);
    FirstCopiesKeep(Declarations(fs, |fs|), DeclarationIdentity);
    FirstCopiesKeep(Relations(fs, |fs|), RelationIdentity);
    SortBySorts(a.declarations, DeclarationKey);
    SortBySorts(a.relations, RelationKey);
    UniquePermutes(a.declarations, SortBy(a.declarations, DeclarationKey), DeclarationIdentity);
    UniquePermutes(a.relations, SortBy(a.relations, RelationKey), RelationIdentity);
    hide Declarations, Relations, FirstCopies, Gather, SortBy, UniqueIds, UniqueKeys, Consistent;
  }

  lemma SingleGather<T>(f: Fragment, get: Fragment -> seq<T>)
    ensures Gather([f][..1], get) == get(f)
  {
    assert [f][..1] == [f];
    GatherOne(f, get);
  }

  lemma UniqueIdsStay(f: Fragment)
    requires UniqueIds(f.doc)
    ensures Renamed([f], f) == f.doc
  {
    forall family, id ensures Count([f], family, id) <= 1 {
      SingleGather(f, (g: Fragment) => Ids(g.doc, family));
      assert [f][..1] == [f];
      UniqueIdCounts(f.doc, family, id);
    }
    CollisionFree([f], f);
  }

  lemma CanonicalCollected(f: Fragment)
    requires Canonical(f.doc)
    ensures FactsAgree([f], 1) && Collected([f], 1) == f.doc
  {
    hide Renamed, UniqueIds, UniqueKeys, SortDoc, Consistent, Collected, Declarations, Relations;
    UniqueIdsStay(f);
    SingleFacts(f);
    SingleRecords(f);
    FirstCopiesFixpoint(f.doc.declarations, DeclarationIdentity);
    FirstCopiesFixpoint(f.doc.relations, RelationIdentity);
    UniqueIsConsistent(f.doc.declarations, DeclarationIdentity);
    UniqueIsConsistent(f.doc.relations, RelationIdentity);
  }

  lemma UniqueIsConsistent<T(!new)>(facts: seq<T>, identity: T -> Key)
    requires UniqueKeys(facts, identity)
    ensures Consistent(facts, identity)
  {
  }

  lemma SingleFacts(f: Fragment)
    requires Renamed([f], f) == f.doc
    ensures Declarations([f], 1) == f.doc.declarations && Relations([f], 1) == f.doc.relations
  {
    hide Renamed, Gather;
    SingleGather(f, (g: Fragment) => Renamed([f], g).declarations);
    SingleGather(f, (g: Fragment) => Renamed([f], g).relations);
  }

  /** A single fragment that is not renamed is collected as it is, but for its facts and its head. */
  lemma SingleRecords(f: Fragment)
    requires Renamed([f], f) == f.doc
    ensures Collected([f], 1) == f.doc.(generatedBy := GENERATOR, sourceUnits := [],
                                        declarations := FirstCopies(Declarations([f], 1)),
                                        relations := FirstCopies(Relations([f], 1)))
  {
    hide Renamed, Gather, FirstCopies, Declarations, Relations;
    SingleGather(f, (g: Fragment) => Renamed([f], g).subjects);
    SingleGather(f, (g: Fragment) => Renamed([f], g).anchors);
    SingleGather(f, (g: Fragment) => Renamed([f], g).surfaces);
    SingleGather(f, (g: Fragment) => Renamed([f], g).specimens);
    SingleGather(f, (g: Fragment) => Renamed([f], g).drafts);
    SingleGather(f, (g: Fragment) => Renamed([f], g).features);
    SingleGather(f, (g: Fragment) => Renamed([f], g).routes);
    SingleGather(f, (g: Fragment) => Renamed([f], g).edges);
    assert f in [f];
  }

  /** Merging the result of a merge on its own, under whatever name, returns it unchanged. */
  lemma MergeIsStable(fs: seq<Fragment>, repo: string, check: Doc -> bool)
    requires RejectsRepeatedIds(check) && Merged(fs, check).Success?
    ensures Merged([Fragment(repo, Merged(fs, check).value)], check) == Merged(fs, check)
  {
    var d := Merged(fs, check).value;
    MergedIsCanonical(fs, check);
    CanonicalCollected(Fragment(repo, d));
    hide Collected, FactsAgree, SortDoc, UniqueIds, UniqueKeys;
  }
}
