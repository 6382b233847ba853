/**
 Index documents: seven families of identified records, source facts and edges between them. Fields
 that no merge step looks at are collected in `rest`.
 */
module IndexDocs {
  import opened Wrappers
  import opened Ordering

  type Id = string

  datatype Family = Subjects | Anchors | Surfaces | Specimens | Drafts | Features | Routes
  datatype Visibility = Public | PrivateLocal

  datatype Subject = Subject(id: Id, rest: string)
  datatype Anchor = Anchor(id: Id, subject: Id, rest: string)
  datatype Surface = Surface(id: Id, subject: Id, rest: string)
  datatype Specimen = Specimen(id: Id, subject: Id, docAnchor: Option<Id>, rest: string)
  datatype Grammar =
    Grammar(id: string, decoder: Option<Id>, encoder: Option<Id>, surface: Option<Id>, roundTrip: bool)

  /** A feature, or a feature draft: both claim anchors, surfaces and specimens. */
  datatype Feature = Feature(
    id: Id,
    subject: Id,
    anchors: seq<Id>,
    surfaces: seq<Id>,
    specimens: seq<Id>,
    grammars: seq<Grammar>,
    docAnchor: Option<Id>,
    rest: string)

  datatype RouteStep = FeatureStep(id: Id, why: string) | SpecimenStep(id: Id, why: string)
  datatype Route = Route(id: Id, steps: seq<RouteStep>, docAnchor: Option<Id>, rest: string)
  datatype Edge = Edge(from: Id, rel: string, to: Id)
  datatype Declaration = Declaration(anchor: Id, role: string, modulePath: string, rest: string)
  datatype Relation = Relation(anchor: Id, implementor: string, spelling: string, rest: string)

  datatype Doc = Doc(
    generatedBy: string,
    visibility: Visibility,
    sourceUnits: seq<string>,
    subjects: seq<Subject>,
    anchors: seq<Anchor>,
    declarations: seq<Declaration>,
    relations: seq<Relation>,
    surfaces: seq<Surface>,
    specimens: seq<Specimen>,
    drafts: seq<Feature>,
    features: seq<Feature>,
    routes: seq<Route>,
    edges: seq<Edge>)

  function SubjectKey(r: Subject): Key { [r.id] }
  function AnchorKey(r: Anchor): Key { [r.id] }
  function SurfaceKey(r: Surface): Key { [r.id] }
  function SpecimenKey(r: Specimen): Key { [r.id] }
  function FeatureKey(r: Feature): Key { [r.id] }
  function RouteKey(r: Route): Key { [r.id] }
  function GrammarKey(r: Grammar): Key { [r.id] }
  function IdKey(id: Id): Key { [id] }
  function EdgeKey(e: Edge): Key { [e.from, e.rel, e.to] }
  function DeclarationKey(d: Declaration): Key { [d.anchor, d.role, d.modulePath, d.rest] }
  function RelationKey(r: Relation): Key { [r.anchor, r.implementor, r.spelling, r.rest] }

  /** What makes two source facts copies of one another. */
  function DeclarationIdentity(d: Declaration): Key { [d.anchor, d.role, d.modulePath] }
  function RelationIdentity(r: Relation): Key { [r.anchor, r.implementor, r.spelling] }

  function Each<T, U>(s: seq<T>, f: T -> U): (r: seq<U>)
    ensures |r| == |s|
  {
    seq(|s|, i requires 0 <= i < |s| => f(s[i]))
  }

  function MapOption<T, U>(o: Option<T>, f: T -> U): Option<U> {
    match o
    case None => None
    case Some(v) => Some(f(v))
  }

  function Ids(doc: Doc, family: Family): seq<Id> {
    match family
    case Subjects => Each(doc.subjects, (r: Subject) => r.id)
    case Anchors => Each(doc.anchors, (r: Anchor) => r.id)
    case Surfaces => Each(doc.surfaces, (r: Surface) => r.id)
    case Specimens => Each(doc.specimens, (r: Specimen) => r.id)
    case Drafts => Each(doc.drafts, (r: Feature) => r.id)
    case Features => Each(doc.features, (r: Feature) => r.id)
    case Routes => Each(doc.routes, (r: Route) => r.id)
  }

  /** What every valid document has: no id twice within a family. */
  ghost predicate UniqueIds(doc: Doc) {
    && UniqueKeys(doc.subjects, SubjectKey)
    && UniqueKeys(doc.anchors, AnchorKey)
    && UniqueKeys(doc.surfaces, SurfaceKey)
    && UniqueKeys(doc.specimens, SpecimenKey)
    && UniqueKeys(doc.drafts, FeatureKey)
    && UniqueKeys(doc.features, FeatureKey)
    && UniqueKeys(doc.routes, RouteKey)
  }

  // ---- renaming ----

  /** The new id of every identified record of one fragment, family by family. */
  datatype IdMaps = IdMaps(
    subjects: map<Id, Id>,
    anchors: map<Id, Id>,
    surfaces: map<Id, Id>,
    specimens: map<Id, Id>,
    drafts: map<Id, Id>,
    features: map<Id, Id>,
    routes: map<Id, Id>)
  {
    function Of(family: Family): map<Id, Id> {
      match family
      case Subjects => subjects
      case Anchors => anchors
      case Surfaces => surfaces
      case Specimens => specimens
      case Drafts => drafts
      case Features => features
      case Routes => routes
    }

    function Map(family: Family, id: Id): Id {
      if id in Of(family) then Of(family)[id] else id
    }

    /** Tries the families in a fixed order; drafts are not among them. */
    function MapAny(id: Id): Id {
      if id in subjects then subjects[id]
      else if id in anchors then anchors[id]
      else if id in surfaces then surfaces[id]
      else if id in specimens then specimens[id]
      else if id in features then features[id]
      else if id in routes then routes[id]
      else id
    }

    function In(family: Family): Id -> Id {
      id => Map(family, id)
    }
  }

  function RewriteGrammar(g: Grammar, maps: IdMaps): Grammar {
    Grammar(g.id, MapOption(g.decoder, maps.In(Anchors)), MapOption(g.encoder, maps.In(Anchors)),
            MapOption(g.surface, maps.In(Surfaces)), g.roundTrip)
  }

  function RewriteFeature(r: Feature, family: Family, maps: IdMaps): Feature {
    Feature(maps.Map(family, r.id), maps.Map(Subjects, r.subject), Each(r.anchors, maps.In(Anchors)),
            Each(r.surfaces, maps.In(Surfaces)), Each(r.specimens, maps.In(Specimens)),
            Each(r.grammars, (g: Grammar) => RewriteGrammar(g, maps)), MapOption(r.docAnchor, maps.In(Anchors)), r.rest)
  }

  function RewriteStep(s: RouteStep, maps: IdMaps): RouteStep {
    match s
    case FeatureStep(id, why) => FeatureStep(maps.Map(Features, id), why)
    case SpecimenStep(id, why) => SpecimenStep(maps.Map(Specimens, id), why)
  }

  function RewriteRoute(r: Route, maps: IdMaps): Route {
    Route(maps.Map(Routes, r.id), Each(r.steps, (s: RouteStep) => RewriteStep(s, maps)),
          MapOption(r.docAnchor, maps.In(Anchors)), r.rest)
  }

  function RewriteEdge(e: Edge, maps: IdMaps): Edge {
    if e.rel == "contains" then Edge(maps.Map(Subjects, e.from), e.rel, maps.Map(Subjects, e.to))
    else if e.rel == "anchors" then Edge(maps.Map(Features, e.from), e.rel, maps.Map(Anchors, e.to))
    else if e.rel == "surfaces" then Edge(maps.Map(Features, e.from), e.rel, maps.Map(Surfaces, e.to))
    else if e.rel == "demonstrates" then Edge(maps.Map(Features, e.from), e.rel, maps.Map(Specimens, e.to))
    else if e.rel == "supports" || e.rel == "presents" || e.rel == "replaces" then
      Edge(maps.Map(Features, e.from), e.rel, maps.Map(Features, e.to))
    else if e.rel == "routes" then Edge(maps.Map(Routes, e.from), e.rel, maps.MapAny(e.to))
    else Edge(maps.MapAny(e.from), e.rel, maps.MapAny(e.to))
  }

  function RewriteDoc(doc: Doc, maps: IdMaps): Doc {
    doc.(subjects := Each(doc.subjects, (r: Subject) => r.(id := maps.Map(Subjects, r.id))),
         anchors := Each(doc.anchors, (r: Anchor) =>
           r.(id := maps.Map(Anchors, r.id), subject := maps.Map(Subjects, r.subject))),
         declarations := Each(doc.declarations, (r: Declaration) => r.(anchor := maps.Map(Anchors, r.anchor))),
         relations := Each(doc.relations, (r: Relation) => r.(anchor := maps.Map(Anchors, r.anchor))),
         surfaces := Each(doc.surfaces, (r: Surface) =>
           r.(id := maps.Map(Surfaces, r.id), subject := maps.Map(Subjects, r.subject))),
         specimens := Each(doc.specimens, (r: Specimen) =>
           r.(id := maps.Map(Specimens, r.id), subject := maps.Map(Subjects, r.subject),
              docAnchor := MapOption(r.docAnchor, maps.In(Anchors)))),
         drafts := Each(doc.drafts, (r: Feature) => RewriteFeature(r, Drafts, maps)),
         features := Each(doc.features, (r: Feature) => RewriteFeature(r, Features, maps)),
         routes := Each(doc.routes, (r: Route) => RewriteRoute(r, maps)),
         edges := Each(doc.edges, (e: Edge) => RewriteEdge(e, maps)))
  }

  // ---- canonical order ----

  function NormalizeFeature(r: Feature): Feature {
    r.(anchors := SortBy(r.anchors, IdKey), surfaces := SortBy(r.surfaces, IdKey),
       specimens := SortBy(r.specimens, IdKey), grammars := SortBy(r.grammars, GrammarKey))
  }

  function SortDoc(doc: Doc): Doc {
    doc.(subjects := SortBy(doc.subjects, SubjectKey),
         anchors := SortBy(doc.anchors, AnchorKey),
         declarations := SortBy(doc.declarations, DeclarationKey),
         relations := SortBy(doc.relations, RelationKey),
         surfaces := SortBy(doc.surfaces, SurfaceKey),
         specimens := SortBy(doc.specimens, SpecimenKey),
         drafts := Each(SortBy(doc.drafts, FeatureKey), NormalizeFeature),
         features := Each(SortBy(doc.features, FeatureKey), NormalizeFeature),
         routes := SortBy(doc.routes, RouteKey),
         edges := Dedup(SortBy(doc.edges, EdgeKey)))
  }
}
