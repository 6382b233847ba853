/** What merging fragments preserves: identity, references, independence of order, stability. */
module MergeLaws {
  import opened Wrappers
  import opened IndexDocs
  import opened Merge

  // ---- renaming is injective ----

  ghost function Maps(fs: seq<Fragment>, f: Fragment): IdMaps {
    MapsFor(f, (family, id) => Count(fs, family, id))
  }

  /** The merged id of a record. */
  ghost function NewId(fs: seq<Fragment>, f: Fragment, family: Family, id: Id): Id {
    if Count(fs, family, id) > 1 then Local(f.repo, id) else id
  }

  lemma MapsAre(fs: seq<Fragment>, f: Fragment, family: Family, id: Id)
    ensures id in Maps(fs, f).Of(family) <==> id in Ids(f.doc, family)
    ensures Maps(fs, f).Map(family, id) == if id in Ids(f.doc, family) then NewId(fs, f, family, id) else id
  {
    hide Ids;
  }

  /** Repositories have distinct names without slashes, as `id_segment` makes them. */
  ghost predicate DistinctRepos(fs: seq<Fragment>) {
    && (forall i :: 0 <= i < |fs| ==> '/' !in fs[i].repo)
    && (forall i, j :: 0 <= i < j < |fs| ==> fs[i].repo != fs[j].repo)
  }

  lemma LocalInjective(r: string, x: Id, s: string, y: Id)
    requires '/' !in r && '/' !in s && Local(r, x) == Local(s, y)
    ensures r == s && x == y
  {
    var a, b := r + "/" + x, s + "/" + y;
    assert a == Local(r, x)[6..] && b == Local(s, y)[6..];
    assert a[|r|] == '/' && b[|s|] == '/';
    assert r == a[..|r|] && s == b[..|s|];
    assert x == a[|r| + 1..] && y == b[|s| + 1..];
  }

  lemma {:induction false} GatherHas<F, T>(fs: seq<F>, get: F -> seq<T>, i: nat, x: T)
    requires i < |fs|
    ensures multiset(get(fs[i]))[x] <= multiset(Gather(fs, get))[x]
    decreases |fs|
  {
    if i < |fs| - 1 {
      GatherHas(fs[..|fs| - 1], get, i, x);
    }
  }

  lemma {:induction false} GatherHasBoth<F, T>(fs: seq<F>, get: F -> seq<T>, i: nat, j: nat, x: T)
    requires i < j < |fs|
    ensures multiset(get(fs[i]))[x] + multiset(get(fs[j]))[x] <= multiset(Gather(fs, get))[x]
    decreases |fs|
  {
    if j < |fs| - 1 {
      GatherHasBoth(fs[..|fs| - 1], get, i, j, x);
    } else {
      GatherHas(fs[..|fs| - 1], get, i, x);
    }
  }

  /** An id of two fragments is a collision. */
  lemma SharedCollides(fs: seq<Fragment>, i: nat, j: nat, family: Family, id: Id)
    requires i < j < |fs| && id in Ids(fs[i].doc, family) && id in Ids(fs[j].doc, family)
    ensures Count(fs, family, id) > 1
  {
    hide Ids;
    GatherHasBoth(fs, (f: Fragment) => Ids(f.doc, family), i, j, id);
  }

  /** A record that keeps its id has the very id another one is renamed to. */
  ghost predicate Captures(fs: seq<Fragment>, family: Family, a: Id, j: nat, b: Id)
    requires j < |fs|
  {
    Count(fs, family, a) <= 1 && Count(fs, family, b) > 1 && a == Local(fs[j].repo, b)
  }

  /** Merged ids coincide exactly for the same record, or where an id is already spelled like a renamed one. */
  lemma RenamingCollidesExactly(fs: seq<Fragment>, family: Family, i: nat, a: Id, j: nat, b: Id)
    requires DistinctRepos(fs) && i < |fs| && j < |fs|
    requires a in Ids(fs[i].doc, family) && b in Ids(fs[j].doc, family)
    ensures NewId(fs, fs[i], family, a) == NewId(fs, fs[j], family, b) <==>
            (i == j && a == b) || Captures(fs, family, a, j, b) || Captures(fs, family, b, i, a)
  {
    hide Ids, Count;
    if Count(fs, family, a) > 1 && Count(fs, family, b) > 1 {
      if Local(fs[i].repo, a) == Local(fs[j].repo, b) {
        LocalInjective(fs[i].repo, a, fs[j].repo, b);
      }
    } else if a == b && i != j {
      SharedCollides(fs, if i < j then i else j, if i < j then j else i, family, a);
    }
  }

  ghost predicate NoLocalIds(fs: seq<Fragment>) {
    forall i, family, id :: 0 <= i < |fs| && id in Ids(fs[i].doc, family) ==> !("local/" <= id)
  }

  /** Distinct records of a family get distinct merged ids. */
  lemma RenamingInjective(fs: seq<Fragment>, family: Family, i: nat, a: Id, j: nat, b: Id)
    requires DistinctRepos(fs) && NoLocalIds(fs) && i < |fs| && j < |fs|
    requires a in Ids(fs[i].doc, family) && b in Ids(fs[j].doc, family)
    ensures NewId(fs, fs[i], family, a) == NewId(fs, fs[j], family, b) <==> i == j && a == b
  {
    RenamingCollidesExactly(fs, family, i, a, j, b);
    assert "local/" <= Local(fs[j].repo, b) && "local/" <= Local(fs[i].repo, a);
  }

  // ---- references follow their records ----

  lemma RewrittenIds(doc: Doc, maps: IdMaps, family: Family)
    ensures Ids(RewriteDoc(doc, maps), family) == Each(Ids(doc, family), maps.In(family))
  {
  }

  /**
   A reference of fragment `i` to one of its own records names, after renaming, exactly the copy of that
   record: no other record of any fragment carries the rewritten id.
   */
  lemma ReferenceResolves(fs: seq<Fragment>, family: Family, i: nat, id: Id, j: nat, k: nat)
    requires DistinctRepos(fs) && NoLocalIds(fs) && i < |fs| && j < |fs|
    requires id in Ids(fs[i].doc, family) && k < |Ids(fs[j].doc, family)|
    ensures Ids(Renamed(fs, fs[j]), family)[k] == Maps(fs, fs[i]).Map(family, id) <==>
            i == j && Ids(fs[j].doc, family)[k] == id
  {
    var other := Ids(fs[j].doc, family)[k];
    RewrittenIds(fs[j].doc, Maps(fs, fs[j]), family);
    hide Ids, NoLocalIds, DistinctRepos;
    MapsAre(fs, fs[i], family, id);
    MapsAre(fs, fs[j], family, other);
    RenamingInjective(fs, family, i, id, j, other);
  }

  /** A reference to a record of another fragment still finds it exactly when that record was not renamed. */
  lemma CrossReference(fs: seq<Fragment>, family: Family, i: nat, j: nat, k: nat)
    requires i < |fs| && j < |fs| && k < |Ids(fs[j].doc, family)|
    requires Ids(fs[j].doc, family)[k] !in Ids(fs[i].doc, family)
    ensures Ids(Renamed(fs, fs[j]), family)[k] == Maps(fs, fs[i]).Map(family, Ids(fs[j].doc, family)[k]) <==>
            Count(fs, family, Ids(fs[j].doc, family)[k]) <= 1
  {
    var id := Ids(fs[j].doc, family)[k];
    RewrittenIds(fs[j].doc, Maps(fs, fs[j]), family);
    hide Ids;
    MapsAre(fs, fs[i], family, id);
    MapsAre(fs, fs[j], family, id);
    assert |Local(fs[j].repo, id)| > |id|;
  }

  /** Every reference a grammar contract, feature, route or other record makes, with the family it points into. */
  type Ref = (Family, Id)

  function Opt(family: Family, o: Option<Id>): seq<Ref> {
    match o
    case None => []
    case Some(id) => [(family, id)]
  }

  function All(family: Family, ids: seq<Id>): seq<Ref> {
    Each(ids, (id: Id) => (family, id))
  }

  function GrammarRefs(g: Grammar): seq<Ref> {
    Opt(Anchors, g.decoder) + Opt(Anchors, g.encoder) + Opt(Surfaces, g.surface)
  }

  function FeatureRefs(r: Feature): seq<Ref> {
    [(Subjects, r.subject)] + All(Anchors, r.anchors) + All(Surfaces, r.surfaces) + All(Specimens, r.specimens)
    + Gather(r.grammars, GrammarRefs) + Opt(Anchors, r.docAnchor)
  }

  function StepRefs(s: RouteStep): seq<Ref> {
    match s
    case FeatureStep(id, _) => [(Features, id)]
    case SpecimenStep(id, _) => [(Specimens, id)]
  }

  function RouteRefs(r: Route): seq<Ref> {
    Gather(r.steps, StepRefs) + Opt(Anchors, r.docAnchor)
  }

  function AnchorRefs(r: Anchor): seq<Ref> { [(Subjects, r.subject)] }
  function DeclarationRefs(r: Declaration): seq<Ref> { [(Anchors, r.anchor)] }
  function RelationRefs(r: Relation): seq<Ref> { [(Anchors, r.anchor)] }
  function SurfaceRefs(r: Surface): seq<Ref> { [(Subjects, r.subject)] }
  function SpecimenRefs(r: Specimen): seq<Ref> { [(Subjects, r.subject)] + Opt(Anchors, r.docAnchor) }

  function HeadRefs(doc: Doc): seq<Ref> {
    Gather(doc.anchors, AnchorRefs) + Gather(doc.declarations, DeclarationRefs) + Gather(doc.relations, RelationRefs)
    + Gather(doc.surfaces, SurfaceRefs) + Gather(doc.specimens, SpecimenRefs)
  }

  /** All references of a document's records, in order. */
  function Refs(doc: Doc): seq<Ref> {
    HeadRefs(doc) + Gather(doc.drafts, FeatureRefs) + Gather(doc.features, FeatureRefs) + Gather(doc.routes, RouteRefs)
  }

  function Image(maps: IdMaps): Ref -> Ref {
    (ref: Ref) => (ref.0, maps.Map(ref.0, ref.1))
  }

  lemma EachAppend<T, U>(s: seq<T>, t: seq<T>, f: T -> U)
    ensures Each(s + t, f) == Each(s, f) + Each(t, f)
  {
  }

  /** Rewriting record by record rewrites the gathered references one by one. */
  lemma {:induction false} GatherImage<T, U>(s: seq<T>, rewrite: T -> T, refs: T -> seq<U>, image: U -> U)
    requires forall x :: x in s ==> refs(rewrite(x)) == Each(refs(x), image)
    ensures Gather(Each(s, rewrite), refs) == Each(Gather(s, refs), image)
  {
    if s != [] {
      var init := s[..|s| - 1];
      GatherImage(init, rewrite, refs, image);
      assert Each(s, rewrite)[..|s| - 1] == Each(init, rewrite);
      EachAppend(Gather(init, refs), refs(s[|s| - 1]), image);
    }
  }

  lemma AllImage(family: Family, ids: seq<Id>, maps: IdMaps)
    ensures All(family, Each(ids, maps.In(family))) == Each(All(family, ids), Image(maps))
  {
  }

  lemma GrammarImage(g: Grammar, maps: IdMaps)
    ensures GrammarRefs(RewriteGrammar(g, maps)) == Each(GrammarRefs(g), Image(maps))
  {
  }

  lemma FeatureImage(r: Feature, family: Family, maps: IdMaps)
    ensures FeatureRefs(RewriteFeature(r, family, maps)) == Each(FeatureRefs(r), Image(maps))
  {
    forall g | g in r.grammars { GrammarImage(g, maps); }
    GatherImage(r.grammars, (g: Grammar) => RewriteGrammar(g, maps), GrammarRefs, Image(maps));
    AllImage(Anchors, r.anchors, maps);
    AllImage(Surfaces, r.surfaces, maps);
    AllImage(Specimens, r.specimens, maps);
    assert [(Subjects, maps.Map(Subjects, r.subject))] == Each([(Subjects, r.subject)], Image(maps));
    var subject, anchors, surfaces, specimens := [(Subjects, r.subject)], All(Anchors, r.anchors),
                                                 All(Surfaces, r.surfaces), All(Specimens, r.specimens);
    var grammars, docAnchor := Gather(r.grammars, GrammarRefs), Opt(Anchors, r.docAnchor);
    hide Each, All, Opt, Gather, GrammarRefs, RewriteGrammar, Image;
    EachAppend(subject, anchors, Image(maps));
    EachAppend(subject + anchors, surfaces, Image(maps));
    EachAppend(subject + anchors + surfaces, specimens, Image(maps));
    EachAppend(subject + anchors + surfaces + specimens, grammars, Image(maps));
    EachAppend(subject + anchors + surfaces + specimens + grammars, docAnchor, Image(maps));
  }

  lemma RouteImage(r: Route, maps: IdMaps)
    ensures RouteRefs(RewriteRoute(r, maps)) == Each(RouteRefs(r), Image(maps))
  {
    GatherImage(r.steps, (s: RouteStep) => RewriteStep(s, maps), StepRefs, Image(maps));
    EachAppend(Gather(r.steps, StepRefs), Opt(Anchors, r.docAnchor), Image(maps));
  }

  /** Rewriting a document rewrites every reference in it to the image of its target, in place, and no other. */
  lemma ReferencesFollow(doc: Doc, maps: IdMaps)
    ensures Refs(RewriteDoc(doc, maps)) == Each(Refs(doc), Image(maps))
  {
    var image, out := Image(maps), RewriteDoc(doc, maps);
    forall r | r in doc.drafts { FeatureImage(r, Drafts, maps); }
    forall r | r in doc.features { FeatureImage(r, Features, maps); }
    forall r | r in doc.routes { RouteImage(r, maps); }
    hide FeatureRefs, RouteRefs, RewriteFeature, RewriteRoute, Gather;
    HeadImage(doc, maps);
    GatherImage(doc.drafts, (r: Feature) => RewriteFeature(r, Drafts, maps), FeatureRefs, image);
    GatherImage(doc.features, (r: Feature) => RewriteFeature(r, Features, maps), FeatureRefs, image);
    GatherImage(doc.routes, (r: Route) => RewriteRoute(r, maps), RouteRefs, image);
    var heads, drafts, features, routes := HeadRefs(doc), Gather(doc.drafts, FeatureRefs),
                                           Gather(doc.features, FeatureRefs), Gather(doc.routes, RouteRefs);
    hide Each, HeadRefs, Image;
    EachAppend(heads, drafts, image);
    EachAppend(heads + drafts, features, image);
    EachAppend(heads + drafts + features, routes, image);
  }

  /** Two features that differ in ids and references only. */
  ghost predicate SameFeature(a: Feature, b: Feature) {
    && a.rest == b.rest && |a.grammars| == |b.grammars|
    && forall k :: 0 <= k < |a.grammars| ==>
                     a.grammars[k].id == b.grammars[k].id && a.grammars[k].roundTrip == b.grammars[k].roundTrip
  }

  ghost predicate SameStep(a: RouteStep, b: RouteStep) {
    a.FeatureStep? == b.FeatureStep? && a.why == b.why
  }

  ghost predicate SameRoute(a: Route, b: Route) {
    && a.rest == b.rest && |a.steps| == |b.steps|
    && forall k :: 0 <= k < |a.steps| ==> SameStep(a.steps[k], b.steps[k])
  }

  /** Besides ids and references, rewriting leaves every record as it was and in its place. */
  lemma OnlyIdsChange(doc: Doc, maps: IdMaps)
    ensures var out := RewriteDoc(doc, maps);
            && out.generatedBy == doc.generatedBy && out.visibility == doc.visibility && out.sourceUnits == doc.sourceUnits
            && (|out.drafts| == |doc.drafts| && forall k :: 0 <= k < |doc.drafts| ==> SameFeature(out.drafts[k], doc.drafts[k]))
            && (|out.features| == |doc.features| &&
                forall k :: 0 <= k < |doc.features| ==> SameFeature(out.features[k], doc.features[k]))
            && (|out.routes| == |doc.routes| && forall k :: 0 <= k < |doc.routes| ==> SameRoute(out.routes[k], doc.routes[k]))
            && (|out.edges| == |doc.edges| && forall k :: 0 <= k < |doc.edges| ==> out.edges[k].rel == doc.edges[k].rel)
    ensures var out := RewriteDoc(doc, maps);
            && Each(out.subjects, (r: Subject) => r.rest) == Each(doc.subjects, (r: Subject) => r.rest)
            && Each(out.anchors, (r: Anchor) => r.rest) == Each(doc.anchors, (r: Anchor) => r.rest)
            && Each(out.surfaces, (r: Surface) => r.rest) == Each(doc.surfaces, (r: Surface) => r.rest)
            && Each(out.specimens, (r: Specimen) => r.rest) == Each(doc.specimens, (r: Specimen) => r.rest)
            && Each(out.declarations, (r: Declaration) => (r.role, r.modulePath, r.rest)) ==
               Each(doc.declarations, (r: Declaration) => (r.role, r.modulePath, r.rest))
            && Each(out.relations, (r: Relation) => (r.implementor, r.spelling, r.rest)) ==
               Each(doc.relations, (r: Relation) => (r.implementor, r.spelling, r.rest))
  {
    forall r, family { SameFeatureKept(r, family, maps); }
    forall r { SameRouteKept(r, maps); }
    hide SameFeature, SameRoute, RewriteFeature, RewriteRoute;
  }

  lemma SameFeatureKept(r: Feature, family: Family, maps: IdMaps)
    ensures SameFeature(RewriteFeature(r, family, maps), r)
  {
  }

  lemma SameRouteKept(r: Route, maps: IdMaps)
    ensures SameRoute(RewriteRoute(r, maps), r)
  {
  }

  lemma FactImages(doc: Doc, maps: IdMaps)
    ensures var out := RewriteDoc(doc, maps);
            && Gather(out.anchors, AnchorRefs) == Each(Gather(doc.anchors, AnchorRefs), Image(maps))
            && Gather(out.declarations, DeclarationRefs) == Each(Gather(doc.declarations, DeclarationRefs), Image(maps))
            && Gather(out.relations, RelationRefs) == Each(Gather(doc.relations, RelationRefs), Image(maps))
  {
    var anchor := (r: Anchor) => r.(id := maps.Map(Anchors, r.id), subject := maps.Map(Subjects, r.subject));
    GatherImage(doc.anchors, anchor, AnchorRefs, Image(maps));
    GatherImage(doc.declarations, (r: Declaration) => r.(anchor := maps.Map(Anchors, r.anchor)), DeclarationRefs,
                Image(maps));
    GatherImage(doc.relations, (r: Relation) => r.(anchor := maps.Map(Anchors, r.anchor)), RelationRefs, Image(maps));
  }

  lemma SurfaceImages(doc: Doc, maps: IdMaps)
    ensures var out := RewriteDoc(doc, maps);
            && Gather(out.surfaces, SurfaceRefs) == Each(Gather(doc.surfaces, SurfaceRefs), Image(maps))
            && Gather(out.specimens, SpecimenRefs) == Each(Gather(doc.specimens, SpecimenRefs), Image(maps))
  {
    var surface := (r: Surface) => r.(id := maps.Map(Surfaces, r.id), subject := maps.Map(Subjects, r.subject));
    var specimen := (r: Specimen) => r.(id := maps.Map(Specimens, r.id), subject := maps.Map(Subjects, r.subject),
                                        docAnchor := MapOption(r.docAnchor, maps.In(Anchors)));
    GatherImage(doc.surfaces, surface, SurfaceRefs, Image(maps));
    GatherImage(doc.specimens, specimen, SpecimenRefs, Image(maps));
  }

  lemma HeadImage(doc: Doc, maps: IdMaps)
    ensures HeadRefs(RewriteDoc(doc, maps)) == Each(HeadRefs(doc), Image(maps))
  {
    var image := Image(maps);
    FactImages(doc, maps);
    SurfaceImages(doc, maps);
    hide Gather, AnchorRefs, DeclarationRefs, RelationRefs, SurfaceRefs, SpecimenRefs, RewriteDoc, Each, Image;
    var a, b, c := Gather(doc.anchors, AnchorRefs), Gather(doc.declarations, DeclarationRefs),
                   Gather(doc.relations, RelationRefs);
    var d, e := Gather(doc.surfaces, SurfaceRefs), Gather(doc.specimens, SpecimenRefs);
    EachAppend(a, b, image);
    EachAppend(a + b, c, image);
    EachAppend(a + b + c, d, image);
    EachAppend(a + b + c + d, e, image);
  }

  // ---- edges ----

  /** No id serves two of the families an edge can point into. */
  ghost predicate FamiliesDisjoint(doc: Doc) {
    forall f, g, id :: f != Drafts && g != Drafts && id in Ids(doc, f) && id in Ids(doc, g) ==> f == g
  }

  /** The families whose records an edge of this relation connects; `None` where it may be any but drafts. */
  function EndFamilies(rel: string): (Option<Family>, Option<Family>) {
    if rel == "contains" then (Some(Subjects), Some(Subjects))
    else if rel == "anchors" then (Some(Features), Some(Anchors))
    else if rel == "surfaces" then (Some(Features), Some(Surfaces))
    else if rel == "demonstrates" then (Some(Features), Some(Specimens))
    else if rel in ["supports", "presents", "replaces"] then (Some(Features), Some(Features))
    else if rel == "routes" then (Some(Routes), None)
    else (None, None)
  }

  predicate Admits(expected: Option<Family>, family: Family) {
    family != Drafts && (expected == None || expected == Some(family))
  }

  lemma MapAnyFinds(doc: Doc, maps: IdMaps, family: Family, id: Id)
    requires FamiliesDisjoint(doc) && forall f :: maps.Of(f).Keys == set i | i in Ids(doc, f)
    requires family != Drafts && id in Ids(doc, family)
    ensures maps.MapAny(id) == maps.Map(family, id)
  {
    hide Ids;
    assert forall f :: id in maps.Of(f) <==> id in Ids(doc, f);
    assert forall f :: f != Drafts && id in maps.Of(f) ==> f == family;
    assert maps.Of(Subjects) == maps.subjects && maps.Of(Anchors) == maps.anchors && maps.Of(Surfaces) == maps.surfaces;
    assert maps.Of(Specimens) == maps.specimens && maps.Of(Features) == maps.features && maps.Of(Routes) == maps.routes;
  }

  /** An edge keeps its relation and both its ends, whether its ends are typed or looked up in every family. */
  lemma EdgeKeepsItsEnds(doc: Doc, maps: IdMaps, e: Edge, f: Family, g: Family)
    requires FamiliesDisjoint(doc) && forall h :: maps.Of(h).Keys == set i | i in Ids(doc, h)
    requires Admits(EndFamilies(e.rel).0, f) && Admits(EndFamilies(e.rel).1, g)
    requires e.from in Ids(doc, f) && e.to in Ids(doc, g)
    ensures RewriteEdge(e, maps) == Edge(maps.Map(f, e.from), e.rel, maps.Map(g, e.to))
  {
    hide Ids, FamiliesDisjoint, EndFamilies, RewriteEdge, Admits;
    assert f != Drafts && g != Drafts by { AdmittedEnds(e.rel, f, g); }
    MapAnyFinds(doc, maps, f, e.from);
    MapAnyFinds(doc, maps, g, e.to);
    EndsFollow(maps, e, f, g);
  }

  lemma AdmittedEnds(rel: string, f: Family, g: Family)
    requires Admits(EndFamilies(rel).0, f) && Admits(EndFamilies(rel).1, g)
    ensures f != Drafts && g != Drafts
  {
  }

  lemma EndsFollow(maps: IdMaps, e: Edge, f: Family, g: Family)
    requires Admits(EndFamilies(e.rel).0, f) && Admits(EndFamilies(e.rel).1, g)
    requires maps.MapAny(e.from) == maps.Map(f, e.from) && maps.MapAny(e.to) == maps.Map(g, e.to)
    ensures RewriteEdge(e, maps) == Edge(maps.Map(f, e.from), e.rel, maps.Map(g, e.to))
  {
  }

  /** The id of a draft that names nothing else in its document. */
  ghost predicate OnlyDraft(doc: Doc, id: Id) {
    id in Ids(doc, Drafts) && forall g :: g != Drafts ==> id !in Ids(doc, g)
  }

  lemma DraftIsLeftOut(fs: seq<Fragment>, f: Fragment, id: Id)
    requires OnlyDraft(f.doc, id)
    ensures Maps(fs, f).MapAny(id) == id && forall g :: g != Drafts ==> Maps(fs, f).Map(g, id) == id
    ensures Maps(fs, f).Map(Drafts, id) == id <==> Count(fs, Drafts, id) <= 1
  {
    forall g { MapsAre(fs, f, g, id); }
    var maps := Maps(fs, f);
    hide Ids;
    assert maps.Of(Subjects) == maps.subjects && maps.Of(Anchors) == maps.anchors && maps.Of(Surfaces) == maps.surfaces;
    assert maps.Of(Specimens) == maps.specimens && maps.Of(Features) == maps.features && maps.Of(Routes) == maps.routes;
    assert |Local(f.repo, id)| > |id|;
  }

  /** Whatever its relation, an edge keeps the id of a draft it ends at, and follows the draft exactly when that is not renamed. */
  lemma DraftEdges(fs: seq<Fragment>, f: Fragment, e: Edge)
    ensures var maps := Maps(fs, f);
            && (OnlyDraft(f.doc, e.from) ==>
                  && RewriteEdge(e, maps).from == e.from
                  && (RewriteEdge(e, maps).from == maps.Map(Drafts, e.from) <==> Count(fs, Drafts, e.from) <= 1))
            && (OnlyDraft(f.doc, e.to) ==>
                  && RewriteEdge(e, maps).to == e.to
                  && (RewriteEdge(e, maps).to == maps.Map(Drafts, e.to) <==> Count(fs, Drafts, e.to) <= 1))
  {
    hide Maps, Count, OnlyDraft;
    if OnlyDraft(f.doc, e.from) {
      DraftIsLeftOut(fs, f, e.from);
    }
    if OnlyDraft(f.doc, e.to) {
      DraftIsLeftOut(fs, f, e.to);
    }
  }

  // ---- where renaming falls short ----

  function SubjectsOnly(subjects: seq<Subject>): Doc {
    Doc("", Public, [], subjects, [], [], [], [], [], [], [], [], [])
  }

  function DraftOnly(id: Id): Doc {
    Doc("", Public, [], [], [], [], [], [], [], [Feature(id, "", [], [], [], [], None, "")], [], [], [])
  }

  lemma GatherTwo<F, T>(a: F, b: F, get: F -> seq<T>)
    ensures Gather([a, b], get) == get(a) + get(b)
  {
    assert [a, b][..1] == [a] && [a][..0] == [];
    assert Gather([a], get) == [] + get(a);
  }

  /** Two fragments share the subject `x`, and one has a subject already spelled as the other's renamed one. */
  function CaptureFragments(): seq<Fragment> {
    [Fragment("a", SubjectsOnly([Subject("x", "")])),
     Fragment("b", SubjectsOnly([Subject("x", ""), Subject(Local("a", "x"), "")]))]
  }

  lemma CaptureExample()
    ensures var fs, taken := CaptureFragments(), Local("a", "x");
            && "x" in Ids(fs[0].doc, Subjects) && taken in Ids(fs[1].doc, Subjects)
            && Captures(fs, Subjects, taken, 0, "x")
            && NewId(fs, fs[0], Subjects, "x") == NewId(fs, fs[1], Subjects, taken)
  {
    var a, b := CaptureFragments()[0], CaptureFragments()[1];
    assert CaptureFragments() == [a, b];
    GatherTwo(a, b, (f: Fragment) => Ids(f.doc, Subjects));
    assert Ids(a.doc, Subjects) == ["x"] && Ids(b.doc, Subjects) == ["x", Local("a", "x")];
    assert |Local("a", "x")| > |"x"|;
  }

  /** Two fragments share a draft: an edge of any relation keeps the old id of the renamed draft. */
  lemma DraftExample(id: Id, rel: string)
    ensures var a, b := Fragment("a", DraftOnly(id)), Fragment("b", DraftOnly(id));
            var maps := Maps([a, b], a);
            RewriteEdge(Edge(id, rel, id), maps) == Edge(id, rel, id) && maps.Map(Drafts, id) != id
  {
    var a, b := Fragment("a", DraftOnly(id)), Fragment("b", DraftOnly(id));
    GatherTwo(a, b, (f: Fragment) => Ids(f.doc, Drafts));
    assert Ids(a.doc, Drafts) == [id] && Ids(b.doc, Drafts) == [id];
    forall g | g != Drafts ensures Ids(a.doc, g) == [] {
    }
    assert OnlyDraft(a.doc, id) && Count([a, b], Drafts, id) == 2;
    hide Ids, OnlyDraft, Count, Maps, RewriteEdge;
    DraftIsLeftOut([a, b], a, id);
    DraftEdges([a, b], a, Edge(id, rel, id));
    RelationKept(Edge(id, rel, id), Maps([a, b], a));
  }

  lemma RelationKept(e: Edge, maps: IdMaps)
    ensures RewriteEdge(e, maps).rel == e.rel
  {
  }
}
