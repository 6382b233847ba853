/** Claims on discovered items, how strictly they are required, and the doctor's drafts for the missing ones. */
module Coverage {
  import opened Wrappers
  import opened Ordering
  import Text

  // ---- records and claims ----

  datatype ClaimKind = AnchorClaim | SurfaceClaim | SpecimenClaim

  datatype Record = Record(id: string, subject: string, kind: string)
  datatype SpecimenRecord = SpecimenRecord(id: string, subject: string, kind: string, runnable: bool, checked: bool)
  datatype RouteGap = RouteGap(category: string, id: string)

  /** A feature or a feature draft, as far as it claims items. */
  datatype Claimant = Claimant(id: string, anchors: seq<string>, surfaces: seq<string>, specimens: seq<string>)

  datatype Catalog = Catalog(
    anchors: seq<Record>,
    surfaces: seq<Record>,
    specimens: seq<SpecimenRecord>,
    drafts: seq<Claimant>,
    features: seq<Claimant>,
    routeGaps: seq<RouteGap>)

  datatype ClaimKey = ClaimKey(kind: ClaimKind, id: string)
  datatype ClaimableItem = ClaimableItem(kind: ClaimKind, id: string, owner: string, facet: string)
  datatype MissingDraftRow = MissingDraftRow(kind: string, id: string, owner: string)

  function KindName(kind: ClaimKind): string {
    match kind
    case AnchorClaim => "anchor"
    case SurfaceClaim => "surface"
    case SpecimenClaim => "specimen"
  }

  /** The declared order of the kinds. */
  function KindRank(kind: ClaimKind): string {
    match kind
    case AnchorClaim => "0"
    case SurfaceClaim => "1"
    case SpecimenClaim => "2"
  }

  function KeyOf(item: ClaimableItem): ClaimKey { ClaimKey(item.kind, item.id) }
  function ItemOrder(item: ClaimableItem): Key { [KindRank(item.kind), item.id, item.owner] }
  function RowOrder(row: MissingDraftRow): Key { [row.kind, row.id, row.owner] }
  function RowOf(item: ClaimableItem): MissingDraftRow { MissingDraftRow(KindName(item.kind), item.id, item.owner) }

  function RecordItems(kind: ClaimKind, records: seq<Record>): seq<ClaimableItem> {
    seq(|records|, i requires 0 <= i < |records| => ClaimableItem(kind, records[i].id, records[i].subject, records[i].kind))
  }

  /** Only specimens that run and are checked want a claim. */
  function SpecimenItems(records: seq<SpecimenRecord>): seq<ClaimableItem> {
    if records == [] then []
    else
      var r := records[0];
      (if r.runnable && r.checked then [ClaimableItem(SpecimenClaim, r.id, r.subject, r.kind)] else [])
      + SpecimenItems(records[1..])
  }

  function ClaimableItems(doc: Catalog): seq<ClaimableItem> {
    SortBy(RecordItems(AnchorClaim, doc.anchors) + RecordItems(SurfaceClaim, doc.surfaces) + SpecimenItems(doc.specimens),
           ItemOrder)
  }

  /** An item of the catalog: an anchor, a surface, or a specimen that runs and is checked. */
  ghost predicate IsItem(doc: Catalog, item: ClaimableItem) {
    match item.kind
    case AnchorClaim => Record(item.id, item.owner, item.facet) in doc.anchors
    case SurfaceClaim => Record(item.id, item.owner, item.facet) in doc.surfaces
    case SpecimenClaim => SpecimenRecord(item.id, item.owner, item.facet, true, true) in doc.specimens
  }

  lemma {:induction false} SpecimenItemsExact(records: seq<SpecimenRecord>, item: ClaimableItem)
    ensures item in SpecimenItems(records) <==>
            item.kind == SpecimenClaim && SpecimenRecord(item.id, item.owner, item.facet, true, true) in records
  {
    if records != [] {
      SpecimenItemsExact(records[1..], item);
      assert records == [records[0]] + records[1..];
    }
  }

  lemma RecordItemsExact(kind: ClaimKind, records: seq<Record>, item: ClaimableItem)
    ensures item in RecordItems(kind, records) <==>
            item.kind == kind && Record(item.id, item.owner, item.facet) in records
  {
    var items := RecordItems(kind, records);
    if item in items {
      var i :| 0 <= i < |items| && items[i] == item;
      assert records[i] == Record(item.id, item.owner, item.facet);
    }
    if item.kind == kind && Record(item.id, item.owner, item.facet) in records {
      var i :| 0 <= i < |records| && records[i] == Record(item.id, item.owner, item.facet);
      assert items[i] == item;
    }
  }

  /** What can be claimed are the catalog's items, ordered by kind, id and owner. */
  lemma ItemsExact(doc: Catalog, item: ClaimableItem)
    ensures item in ClaimableItems(doc) <==> IsItem(doc, item)
    ensures Sorted(ClaimableItems(doc), ItemOrder)
  {
    hide RecordItems, SpecimenItems, Sorted, SortBy, Insert;
    var all := RecordItems(AnchorClaim, doc.anchors) + RecordItems(SurfaceClaim, doc.surfaces) + SpecimenItems(doc.specimens);
    SortBySorts(all, ItemOrder);
    InMultiset(ClaimableItems(doc), all, item);
    RecordItemsExact(AnchorClaim, doc.anchors, item);
    RecordItemsExact(SurfaceClaim, doc.surfaces, item);
    SpecimenItemsExact(doc.specimens, item);
  }

  // ---- who claims what ----

  function Listed(c: Claimant, kind: ClaimKind): seq<string> {
    match kind
    case AnchorClaim => c.anchors
    case SurfaceClaim => c.surfaces
    case SpecimenClaim => c.specimens
  }

  /** `owner`, once for every time it lists `id`. */
  ghost function Times(owner: string, ids: seq<string>, id: string): seq<string> {
    if ids == [] then []
    else Times(owner, ids[..|ids| - 1], id) + if ids[|ids| - 1] == id then [owner] else []
  }

  ghost function OwnersAmong(claimants: seq<Claimant>, key: ClaimKey): seq<string> {
    if claimants == [] then []
    else
      var last := claimants[|claimants| - 1];
      OwnersAmong(claimants[..|claimants| - 1], key) + Times(last.id, Listed(last, key.kind), key.id)
  }

  /** Every claim on an item: the drafts' first, then the features'. */
  ghost function Owners(doc: Catalog, key: ClaimKey): seq<string> {
    OwnersAmong(doc.drafts, key) + OwnersAmong(doc.features, key)
  }

  type Counts = map<ClaimKey, seq<string>>

  function Lookup(counts: Counts, key: ClaimKey): seq<string> {
    if key in counts then counts[key] else []
  }

  ghost predicate NoEmptyEntry(counts: Counts) {
    forall key :: key in counts ==> counts[key] != []
  }

  method Push(counts: Counts, key: ClaimKey, owner: string) returns (after: Counts)
    requires NoEmptyEntry(counts)
    ensures NoEmptyEntry(after)
    ensures forall k :: Lookup(after, k) == Lookup(counts, k) + if k == key then [owner] else []
  {
    after := counts[key := Lookup(counts, key) + [owner]];
  }

  method PushClaims(counts: Counts, owner: string, kind: ClaimKind, ids: seq<string>) returns (after: Counts)
    requires NoEmptyEntry(counts)
    ensures NoEmptyEntry(after)
    ensures forall k :: Lookup(after, k) == Lookup(counts, k) + if k.kind == kind then Times(owner, ids, k.id) else []
  {
    hide Lookup, NoEmptyEntry, Times;
    after := counts;
    NoTimes(owner, ids);
    for i := 0 to |ids|
      invariant NoEmptyEntry(after)
      invariant forall k :: Lookup(after, k) ==
                            Lookup(counts, k) + if k.kind == kind then Times(owner, ids[..i], k.id) else []
    {
      TimesMore(owner, ids, i, i + 1);
      after := Push(after, ClaimKey(kind, ids[i]), owner);
    }
    assert ids[..|ids|] == ids;
  }

  lemma NoTimes(owner: string, ids: seq<string>)
    ensures forall id :: Times(owner, ids[..0], id) == []
  {
  }

  lemma TimesMore(owner: string, ids: seq<string>, i: nat, j: nat)
    requires i < |ids| && j == i + 1
    ensures forall id :: Times(owner, ids[..j], id) == Times(owner, ids[..i], id) + if ids[i] == id then [owner] else []
  {
    assert ids[..j][..i] == ids[..i];
  }

  method PushClaimant(counts: Counts, c: Claimant) returns (after: Counts)
    requires NoEmptyEntry(counts)
    ensures NoEmptyEntry(after)
    ensures forall key :: Lookup(after, key) == Lookup(counts, key) + Times(c.id, Listed(c, key.kind), key.id)
  {
    hide Times, Lookup, NoEmptyEntry;
    var withAnchors := PushClaims(counts, c.id, AnchorClaim, c.anchors);
    var withSurfaces := PushClaims(withAnchors, c.id, SurfaceClaim, c.surfaces);
    after := PushClaims(withSurfaces, c.id, SpecimenClaim, c.specimens);
    forall key ensures Lookup(after, key) == Lookup(counts, key) + Times(c.id, Listed(c, key.kind), key.id) {
      match key.kind {
        case AnchorClaim =>
        case SurfaceClaim =>
        case SpecimenClaim =>
      }
    }
  }

  lemma OwnersMore(claimants: seq<Claimant>, i: nat, j: nat)
    requires i < |claimants| && j == i + 1
    ensures forall key :: OwnersAmong(claimants[..j], key) ==
                          OwnersAmong(claimants[..i], key) + Times(claimants[i].id, Listed(claimants[i], key.kind), key.id)
  {
    hide Listed, Times;
    assert claimants[..j][..i] == claimants[..i];
  }

  lemma NoClaims()
    ensures NoEmptyEntry(map[]) && forall key :: Lookup(map[], key) == [] && OwnersAmong([], key) == []
  {
  }

  method ClaimCounts(doc: Catalog) returns (counts: Counts)
    ensures NoEmptyEntry(counts)
    ensures forall key :: Lookup(counts, key) == Owners(doc, key)
  {
    hide Listed, Times, Lookup, NoEmptyEntry, OwnersAmong;
    counts := map[];
    NoClaims();
    for i := 0 to |doc.drafts|
      invariant NoEmptyEntry(counts)
      invariant forall key :: Lookup(counts, key) == OwnersAmong(doc.drafts[..i], key)
    {
      OwnersMore(doc.drafts, i, i + 1);
      counts := PushClaimant(counts, doc.drafts[i]);
    }
    assert doc.drafts[..|doc.drafts|] == doc.drafts;
    for i := 0 to |doc.features|
      invariant NoEmptyEntry(counts)
      invariant forall key :: Lookup(counts, key) == OwnersAmong(doc.drafts, key) + OwnersAmong(doc.features[..i], key)
    {
      OwnersMore(doc.features, i, i + 1);
      counts := PushClaimant(counts, doc.features[i]);
    }
    assert doc.features[..|doc.features|] == doc.features;
  }

  // ---- strictness ----

  datatype Category = Audience | SurfaceKind | SpecimenKind | RouteCategory
  datatype Entry = Entry(category: Category, value: string)
  datatype SelectorError = NeedsCategory(selector: string) | EmptyValue(selector: string) | UnsupportedCategory(name: string)

  datatype StrictSets = StrictSets(audiences: set<string>, surfaces: set<string>, specimens: set<string>, routes: set<string>)

  function SplitAt(s: string, c: char): (r: seq<string>)
    ensures r != []
    decreases |s|
  {
    var i := Text.IndexOf(s, c);
    if i == |s| then [s] else [s[..i]] + SplitAt(s[i + 1..], c)
  }

  function CategoryOf(name: string): Option<Category> {
    match name
    case "audience" => Some(Audience)
    case "surface" => Some(SurfaceKind)
    case "specimen" => Some(SpecimenKind)
    case "route" => Some(RouteCategory)
    case _ => None
  }

  /** One selector: nothing, `route` for all routes, or `category:value`. */
  function ParseSelector(raw: string): Result<Option<Entry>, SelectorError> {
    var selector := Text.Trim(raw);
    if selector == "" then Success(None)
    else
      var colon := Text.IndexOf(selector, ':');
      if colon == |selector| then
        if selector == "route" then Success(Some(Entry(RouteCategory, "all"))) else Failure(NeedsCategory(selector))
      else
        var value := Text.Trim(selector[colon + 1..]);
        if value == "" then Failure(EmptyValue(selector))
        else
          var name := Text.Trim(selector[..colon]);
          match CategoryOf(name)
          case Some(category) => Success(Some(Entry(category, value)))
          case None => Failure(UnsupportedCategory(name))
  }

  /** The pieces put together again. */
  ghost function JoinAt(pieces: seq<string>, c: char): string {
    if pieces == [] then "" else if |pieces| == 1 then pieces[0] else pieces[0] + [c] + JoinAt(pieces[1..], c)
  }

  lemma {:induction false} SplitExact(s: string, c: char)
    ensures JoinAt(SplitAt(s, c), c) == s
    ensures forall k :: 0 <= k < |SplitAt(s, c)| ==> c !in SplitAt(s, c)[k]
    decreases |s|
  {
    var i := Text.IndexOf(s, c);
    if i < |s| {
      SplitExact(s[i + 1..], c);
      var pieces := [s[..i]] + SplitAt(s[i + 1..], c);
      assert pieces[1..] == SplitAt(s[i + 1..], c);
      assert s == s[..i] + [c] + s[i + 1..];
    } else {
      assert s[..i] == s;
    }
  }

  lemma {:induction false} ColonAt(name: string, rest: string)
    requires ':' !in name
    ensures Text.IndexOf(name + ":" + rest, ':') == |name|
  {
    if name != "" {
      ColonAt(name[1..], rest);
      assert (name + ":" + rest)[1..] == name[1..] + ":" + rest;
    }
  }

  /** A category name and a value, neither with white space around it, parse to an entry; `route` means all routes. */
  lemma SelectorParsed(name: string, value: string, category: Category)
    requires CategoryOf(name) == Some(category) && ':' !in name && Text.Trim(name) == name
    requires value != "" && Text.Trim(value) == value && Text.Trim(name + ":" + value) == name + ":" + value
    ensures ParseSelector(name + ":" + value) == Success(Some(Entry(category, value)))
    ensures ParseSelector("route") == Success(Some(Entry(RouteCategory, "all")))
  {
    var selector := name + ":" + value;
    ColonAt(name, value);
    assert selector[..|name|] == name && selector[|name| + 1..] == value;
    assert Text.Trim("route") == "route" && ':' !in "route";
  }

  /** The selectors before the first faulty one. */
  ghost function Accepted(raws: seq<string>): set<Entry> {
    if raws == [] || ParseSelector(raws[0]).Failure? then {}
    else
      var entry := ParseSelector(raws[0]).value;
      (if entry.Some? then {entry.value} else {}) + Accepted(raws[1..])
  }

  ghost function FirstFault(raws: seq<string>): Result<(), SelectorError> {
    if raws == [] then Success(())
    else if ParseSelector(raws[0]).Failure? then Failure(ParseSelector(raws[0]).error)
    else FirstFault(raws[1..])
  }

  ghost function Values(entries: set<Entry>, category: Category): set<string> {
    set e | e in entries && e.category == category :: e.value
  }

  ghost function With(sets: StrictSets, entries: set<Entry>): StrictSets {
    StrictSets(sets.audiences + Values(entries, Audience), sets.surfaces + Values(entries, SurfaceKind),
               sets.specimens + Values(entries, SpecimenKind), sets.routes + Values(entries, RouteCategory))
  }

  class Strictness {
    var strictAudiences: set<string>
    var strictSurfaces: set<string>
    var strictSpecimens: set<string>
    var strictRoutes: set<string>

    constructor ()
      ensures Sets() == StrictSets({}, {}, {}, {})
    {
      strictAudiences, strictSurfaces, strictSpecimens, strictRoutes := {}, {}, {}, {};
    }

    function Sets(): StrictSets
      reads this
    {
      StrictSets(strictAudiences, strictSurfaces, strictSpecimens, strictRoutes)
    }

    method Add(entry: Entry)
      modifies this
      ensures Sets() == With(old(Sets()), {entry})
    {
      match entry.category {
        case Audience => strictAudiences := strictAudiences + {entry.value};
        case SurfaceKind => strictSurfaces := strictSurfaces + {entry.value};
        case SpecimenKind => strictSpecimens := strictSpecimens + {entry.value};
        case RouteCategory => strictRoutes := strictRoutes + {entry.value};
      }
    }

    /** What the selectors name up to the first faulty one is added, and stays even when one is faulty. */
    method ApplyStrictSelectors(selectors: string) returns (r: Result<(), SelectorError>)
      modifies this
      ensures Sets() == With(old(Sets()), Accepted(SplitAt(selectors, ',')))
      ensures r == FirstFault(SplitAt(selectors, ','))
    {
      hide With, ParseSelector, SplitAt;
      var raws := SplitAt(selectors, ',');
      ghost var entries: set<Entry> := {};
      WithNone(Sets());
      for i := 0 to |raws|
        invariant Sets() == With(old(Sets()), entries)
        invariant Accepted(raws) == entries + Accepted(raws[i..])
        invariant FirstFault(raws) == FirstFault(raws[i..])
      {
        assert raws[i..][1..] == raws[i + 1..];
        var entry := ParseSelector(raws[i]);
        if entry.Failure? {
          return Failure(entry.error);
        }
        if entry.value.Some? {
          WithMore(old(Sets()), entries, entry.value.value);
          Add(entry.value.value);
          entries := entries + {entry.value.value};
        }
      }
      r := Success(());
    }
  }

  lemma WithNone(sets: StrictSets)
    ensures With(sets, {}) == sets
  {
  }

  lemma WithMore(sets: StrictSets, entries: set<Entry>, entry: Entry)
    ensures With(With(sets, entries), {entry}) == With(sets, entries + {entry})
  {
    forall c ensures Values(entries + {entry}, c) == Values(entries, c) + Values({entry}, c) {
    }
  }

  predicate Weaker(s: StrictSets, t: StrictSets) {
    s.audiences <= t.audiences && s.surfaces <= t.surfaces && s.specimens <= t.specimens && s.routes <= t.routes
  }

  predicate Requires(s: StrictSets, item: ClaimableItem) {
    match item.kind
    case AnchorClaim =>
      || ("user" in s.audiences && item.facet == "cli-verb")
      || ("framework" in s.audiences && item.facet == "runtime-lib")
      || ("code" in s.audiences && item.facet in {"crate", "runtime-lib", "export"})
    case SurfaceClaim => item.facet in s.surfaces || ("user" in s.audiences && item.facet == "cli")
    case SpecimenClaim => "all" in s.specimens || item.facet in s.specimens
  }

  predicate RequiresRoute(s: StrictSets, category: string) {
    category in s.routes || "all" in s.routes
  }

  type Audiences = map<string, set<string>>

  function AudiencesOf(audiences: Audiences, id: string): set<string> {
    if id in audiences then audiences[id] else {}
  }

  predicate FeatureStrict(s: StrictSets, audiences: Audiences, id: string) {
    exists a :: a in AudiencesOf(audiences, id) && (a in s.specimens || "all" in s.specimens)
  }

  predicate HasRunnableSpecimen(doc: Catalog, feature: Claimant) {
    exists id, r :: id in feature.specimens && r in doc.specimens && r.id == id && r.runnable && r.checked
  }

  function SpecimenGaps(doc: Catalog, s: StrictSets, audiences: Audiences, features: seq<Claimant>): seq<string> {
    if features == [] then []
    else
      var f := features[0];
      var wanted := FeatureStrict(s, audiences, f.id) || "user" in AudiencesOf(audiences, f.id)
      || "framework" in AudiencesOf(audiences, f.id);
      (if wanted && !HasRunnableSpecimen(doc, f) then [f.id] else []) + SpecimenGaps(doc, s, audiences, features[1..])
  }

  /** A feature that is strict, or meant for users or frameworks, and has no runnable specimen. */
  ghost predicate LacksSpecimen(doc: Catalog, s: StrictSets, audiences: Audiences, f: Claimant) {
    && (FeatureStrict(s, audiences, f.id) || AudiencesOf(audiences, f.id) * {"user", "framework"} != {})
    && forall r :: r in doc.specimens && r.runnable && r.checked ==> r.id !in f.specimens
  }

  lemma {:induction false} SpecimenGapsExact(doc: Catalog, s: StrictSets, audiences: Audiences, features: seq<Claimant>,
                                             id: string)
    ensures id in SpecimenGaps(doc, s, audiences, features) <==>
            exists f :: f in features && f.id == id && LacksSpecimen(doc, s, audiences, f)
  {
    hide FeatureStrict;
    if features != [] {
      var f := features[0];
      SpecimenGapsExact(doc, s, audiences, features[1..], id);
      assert features == [f] + features[1..];
      assert "user" in AudiencesOf(audiences, f.id) || "framework" in AudiencesOf(audiences, f.id) <==>
             AudiencesOf(audiences, f.id) * {"user", "framework"} != {} by {
        assert forall a :: a in AudiencesOf(audiences, f.id) * {"user", "framework"} ==> a == "user" || a == "framework";
        assert "user" in AudiencesOf(audiences, f.id) ==> "user" in AudiencesOf(audiences, f.id) * {"user", "framework"};
        assert "framework" in AudiencesOf(audiences, f.id) ==>
            "framework" in AudiencesOf(audiences, f.id) * {"user", "framework"};
      }
      assert LacksSpecimen(doc, s, audiences, f) ==> !HasRunnableSpecimen(doc, f);
    }
  }

  // ---- coverage ----

  datatype CoverageError =
    | DuplicateClaim(key: ClaimKey, owners: seq<string>)
    | Unindexed(key: ClaimKey)
    | NoRunnableSpecimen(feature: string)
    | Unrouted(gap: RouteGap)

  datatype Report = Report(
    covered: nat,
    advisoryMissing: seq<ClaimableItem>,
    featureSpecimenGaps: seq<string>,
    routeGaps: seq<RouteGap>)

  /** The items that nothing claims. */
  ghost function Unclaimed(doc: Catalog, items: seq<ClaimableItem>): seq<ClaimableItem> {
    if items == [] then []
    else
      var last := items[|items| - 1];
      Unclaimed(doc, items[..|items| - 1]) + if Owners(doc, KeyOf(last)) == [] then [last] else []
  }

  /** How many items have exactly one owner. */
  ghost function OwnedOnce(doc: Catalog, items: seq<ClaimableItem>): nat {
    if items == [] then 0
    else OwnedOnce(doc, items[..|items| - 1]) + if |Owners(doc, KeyOf(items[|items| - 1]))| == 1 then 1 else 0
  }

  function StrIdKey(id: string): Key { [id] }

  ghost function ReportOf(doc: Catalog, s: StrictSets, audiences: Audiences): Report {
    Report(OwnedOnce(doc, ClaimableItems(doc)), Unclaimed(doc, ClaimableItems(doc)),
           SortBy(SpecimenGaps(doc, s, audiences, doc.features), StrIdKey), doc.routeGaps)
  }

  /** The condition under which each complaint is made. */
  ghost predicate Complains(doc: Catalog, s: StrictSets, audiences: Audiences, e: CoverageError) {
    match e
    case DuplicateClaim(key, owners) => owners == Owners(doc, key) && |owners| > 1
    case Unindexed(key) =>
      exists item :: item in Unclaimed(doc, ClaimableItems(doc)) && Requires(s, item) && key == KeyOf(item)
    case NoRunnableSpecimen(id) =>
      id in SpecimenGaps(doc, s, audiences, doc.features) && FeatureStrict(s, audiences, id)
    case Unrouted(gap) => gap in doc.routeGaps && RequiresRoute(s, gap.category)
  }

  ghost predicate Passes(doc: Catalog, s: StrictSets, audiences: Audiences) {
    forall e :: !Complains(doc, s, audiences, e)
  }

  lemma {:induction false} UnclaimedHas(doc: Catalog, items: seq<ClaimableItem>, item: ClaimableItem)
    ensures item in Unclaimed(doc, items) <==> item in items && Owners(doc, KeyOf(item)) == []
  {
    hide Owners;
    if items != [] {
      UnclaimedHas(doc, items[..|items| - 1], item);
      assert items == items[..|items| - 1] + [items[|items| - 1]];
    }
  }

  lemma ItemsMore(doc: Catalog, items: seq<ClaimableItem>, i: nat, j: nat)
    requires i < |items| && j == i + 1
    ensures Unclaimed(doc, items[..j]) ==
            Unclaimed(doc, items[..i]) + if Owners(doc, KeyOf(items[i])) == [] then [items[i]] else []
    ensures OwnedOnce(doc, items[..j]) ==
            OwnedOnce(doc, items[..i]) + if |Owners(doc, KeyOf(items[i]))| == 1 then 1 else 0
  {
    hide Owners;
    assert items[..j][..i] == items[..i];
  }

  method CheckItems(doc: Catalog, s: StrictSets, counts: Counts, items: seq<ClaimableItem>)
    returns (r: Result<(nat, seq<ClaimableItem>), ClaimableItem>)
    requires forall key :: Lookup(counts, key) == Owners(doc, key) && |Owners(doc, key)| <= 1
    ensures r.Success? ==> r.value == (OwnedOnce(doc, items), Unclaimed(doc, items))
    ensures r.Success? ==> forall item :: item in Unclaimed(doc, items) ==> !Requires(s, item)
    ensures r.Failure? ==> r.error in Unclaimed(doc, items) && Requires(s, r.error)
  {
    hide Owners, Requires;
    var covered, advisory := 0, [];
    assert OwnedOnce(doc, items[..0]) == 0 && Unclaimed(doc, items[..0]) == [];
    for i := 0 to |items|
      invariant covered == OwnedOnce(doc, items[..i]) && advisory == Unclaimed(doc, items[..i])
      invariant forall item :: item in advisory ==> !Requires(s, item)
    {
      ItemsMore(doc, items, i, i + 1);
      var owners := Lookup(counts, KeyOf(items[i]));
      if |owners| == 0 {
        if Requires(s, items[i]) {
          UnclaimedHas(doc, items, items[i]);
          return Failure(items[i]);
        }
        advisory := advisory + [items[i]];
      } else {
        covered := covered + 1;
      }
    }
    assert items[..|items|] == items;
    r := Success((covered, advisory));
  }

  method CheckSpecimens(s: StrictSets, audiences: Audiences, gaps: seq<string>) returns (r: Check<string>)
    ensures r.Pass? ==> forall id :: id in gaps ==> !FeatureStrict(s, audiences, id)
    ensures r.Fail? ==> r.error in gaps && FeatureStrict(s, audiences, r.error)
  {
    hide FeatureStrict;
    for i := 0 to |gaps|
      invariant forall k :: 0 <= k < i ==> !FeatureStrict(s, audiences, gaps[k])
    {
      if FeatureStrict(s, audiences, gaps[i]) {
        return Fail(gaps[i]);
      }
    }
    r := Pass;
  }

  method CheckRoutes(s: StrictSets, gaps: seq<RouteGap>) returns (r: Check<RouteGap>)
    ensures r.Pass? ==> forall gap :: gap in gaps ==> !RequiresRoute(s, gap.category)
    ensures r.Fail? ==> r.error in gaps && RequiresRoute(s, r.error.category)
  {
    for i := 0 to |gaps|
      invariant forall k :: 0 <= k < i ==> !RequiresRoute(s, gaps[k].category)
    {
      if RequiresRoute(s, gaps[i].category) {
        return Fail(gaps[i]);
      }
    }
    r := Pass;
  }

  method CheckCoverage(doc: Catalog, s: StrictSets, audiences: Audiences) returns (r: Result<Report, CoverageError>)
    ensures r.Success? ==> Passes(doc, s, audiences) && r.value == ReportOf(doc, s, audiences)
    ensures r.Failure? ==> Complains(doc, s, audiences, r.error)
  {
    hide Owners, Requires, FeatureStrict, RequiresRoute, ClaimableItems, SpecimenGaps, Unclaimed, OwnedOnce;
    var counts := ClaimCounts(doc);
    if key :| key in counts && |counts[key]| > 1 {
      return Failure(DuplicateClaim(key, counts[key]));
    }
    var checked := CheckItems(doc, s, counts, ClaimableItems(doc));
    if checked.Failure? {
      return Failure(Unindexed(KeyOf(checked.error)));
    }
    var gaps := SpecimenGaps(doc, s, audiences, doc.features);
    var specimens := CheckSpecimens(s, audiences, gaps);
    if specimens.Fail? {
      return Failure(NoRunnableSpecimen(specimens.error));
    }
    var routes := CheckRoutes(s, doc.routeGaps);
    if routes.Fail? {
      return Failure(Unrouted(routes.error));
    }
    r := Success(Report(checked.value.0, checked.value.1, SortBy(gaps, StrIdKey), doc.routeGaps));
  }

  // ---- strictness only adds complaints ----

  lemma RequiresMonotone(s: StrictSets, t: StrictSets, item: ClaimableItem)
    requires Weaker(s, t)
    ensures Requires(s, item) ==> Requires(t, item)
  {
  }

  lemma FeatureStrictMonotone(s: StrictSets, t: StrictSets, audiences: Audiences, id: string)
    requires Weaker(s, t)
    ensures FeatureStrict(s, audiences, id) ==> FeatureStrict(t, audiences, id)
  {
  }

  lemma {:induction false} SpecimenGapsMonotone(doc: Catalog, s: StrictSets, t: StrictSets, audiences: Audiences,
                                                features: seq<Claimant>)
    requires Weaker(s, t)
    ensures forall id :: id in SpecimenGaps(doc, s, audiences, features) ==> id in SpecimenGaps(doc, t, audiences, features)
    ensures (forall id :: id in SpecimenGaps(doc, t, audiences, features) ==> !FeatureStrict(t, audiences, id)) ==>
              SpecimenGaps(doc, s, audiences, features) == SpecimenGaps(doc, t, audiences, features)
  {
    hide FeatureStrict, HasRunnableSpecimen, AudiencesOf;
    if features != [] {
      var rest := features[1..];
      SpecimenGapsMonotone(doc, s, t, audiences, rest);
      FeatureStrictMonotone(s, t, audiences, features[0].id);
      assert forall id :: id in SpecimenGaps(doc, t, audiences, rest) ==> id in SpecimenGaps(doc, t, audiences, features);
    }
  }

  /** What passes under a stricter setting passes under a weaker one, with the same report. */
  lemma StrictnessMonotone(doc: Catalog, s: StrictSets, t: StrictSets, audiences: Audiences)
    requires Weaker(s, t) && Passes(doc, t, audiences)
    ensures Passes(doc, s, audiences) && ReportOf(doc, s, audiences) == ReportOf(doc, t, audiences)
  {
    hide Requires, FeatureStrict, SpecimenGaps, Owners, ClaimableItems;
    var gaps := SpecimenGaps(doc, t, audiences, doc.features);
    forall id | id in gaps ensures !FeatureStrict(t, audiences, id) {
      assert !Complains(doc, t, audiences, NoRunnableSpecimen(id));
    }
    SpecimenGapsMonotone(doc, s, t, audiences, doc.features);
    forall e ensures !Complains(doc, s, audiences, e) {
      assert !Complains(doc, t, audiences, e);
      match e {
        case Unindexed(key) =>
          forall item | item in Unclaimed(doc, ClaimableItems(doc)) && key == KeyOf(item) ensures !Requires(s, item) {
            RequiresMonotone(s, t, item);
          }
        case NoRunnableSpecimen(id) => FeatureStrictMonotone(s, t, audiences, id);
        case _ =>
      }
    }
  }

  /** Selectors only ever add to what is strict, so what passes with them passed before they were applied. */
  lemma SelectorsOnlyEnlarge(sets: StrictSets, raws: seq<string>, doc: Catalog, audiences: Audiences)
    ensures Weaker(sets, With(sets, Accepted(raws)))
    ensures Passes(doc, With(sets, Accepted(raws)), audiences) ==>
              && Passes(doc, sets, audiences)
              && ReportOf(doc, sets, audiences) == ReportOf(doc, With(sets, Accepted(raws)), audiences)
  {
    if Passes(doc, With(sets, Accepted(raws)), audiences) {
      StrictnessMonotone(doc, sets, With(sets, Accepted(raws)), audiences);
    }
  }
}
