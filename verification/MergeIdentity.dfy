/** Which ids a merge gives to which records, and that a merge that succeeds keeps all records apart. */
module MergeIdentity {
  import opened Ordering
  import opened IndexDocs
  import opened Merge
  import opened MergeLaws
  import opened MergeOrder

  // ---- ids that do not repeat ----

  ghost predicate Apart<T>(s: seq<T>) {
    forall k, l :: 0 <= k < l < |s| ==> s[k] != s[l]
  }

  ghost predicate Disjoint<T(!new)>(s: seq<T>, t: seq<T>) {
    forall x :: x in s ==> x !in t
  }

  /** No two places of what is gathered hold the same. */
  ghost predicate ApartAmong<F, T(!new)>(fs: seq<F>, get: F -> seq<T>) {
    && (forall i :: 0 <= i < |fs| ==> Apart(get(fs[i])))
    && (forall i, j :: 0 <= i < j < |fs| ==> Disjoint(get(fs[i]), get(fs[j])))
  }

  lemma EachApart<R(!new)>(s: seq<R>, id: R -> Id, key: R -> Key)
    requires forall r :: key(r) == [id(r)]
    ensures UniqueKeys(s, key) <==> Apart(Each(s, id))
  {
    assert forall k, l :: 0 <= k < l < |s| ==> (key(s[k]) == key(s[l]) <==> Each(s, id)[k] == Each(s, id)[l]);
  }

  lemma UniqueIdsApart(doc: Doc)
    ensures UniqueIds(doc) <==> forall family :: Apart(Ids(doc, family))
  {
    EachApart(doc.subjects, (r: Subject) => r.id, SubjectKey);
    EachApart(doc.anchors, (r: Anchor) => r.id, AnchorKey);
    EachApart(doc.surfaces, (r: Surface) => r.id, SurfaceKey);
    EachApart(doc.specimens, (r: Specimen) => r.id, SpecimenKey);
    EachApart(doc.drafts, (r: Feature) => r.id, FeatureKey);
    EachApart(doc.features, (r: Feature) => r.id, FeatureKey);
    EachApart(doc.routes, (r: Route) => r.id, RouteKey);
    hide Apart, UniqueKeys, Each;
    assert UniqueIds(doc) <==> Apart(Ids(doc, Subjects)) && Apart(Ids(doc, Anchors)) && Apart(Ids(doc, Surfaces))
                               && Apart(Ids(doc, Specimens)) && Apart(Ids(doc, Drafts)) && Apart(Ids(doc, Features))
                               && Apart(Ids(doc, Routes));
  }

  lemma ApartConcat<T(!new)>(s: seq<T>, t: seq<T>)
    ensures Apart(s + t) <==> Apart(s) && Apart(t) && Disjoint(s, t)
  {
    var u := s + t;
    assert forall k :: 0 <= k < |s| ==> u[k] == s[k];
    assert forall l :: 0 <= l < |t| ==> u[|s| + l] == t[l];
    if Apart(u) {
      forall k, l | 0 <= k < l < |t| ensures t[k] != t[l] {
        assert u[|s| + k] != u[|s| + l];
      }
      forall k, l | 0 <= k < |s| && 0 <= l < |t| ensures s[k] != t[l] {
        assert u[k] != u[|s| + l];
      }
    }
    if Apart(s) && Apart(t) && Disjoint(s, t) {
      forall k, l | 0 <= k < l < |u| ensures u[k] != u[l] {
        assert if l < |s| then u[l] == s[l] else u[l] == t[l - |s|] && u[l] in t;
        assert if k < |s| then u[k] == s[k] && u[k] in s else u[k] == t[k - |s|];
      }
    }
  }

  lemma {:induction false} GatherDisjoint<F, T(!new)>(fs: seq<F>, get: F -> seq<T>, t: seq<T>)
    ensures Disjoint(Gather(fs, get), t) <==> forall i :: 0 <= i < |fs| ==> Disjoint(get(fs[i]), t)
  {
    if fs != [] {
      var n := |fs| - 1;
      GatherDisjoint(fs[..n], get, t);
      assert forall i :: 0 <= i < n ==> fs[..n][i] == fs[i];
    }
  }

  lemma {:induction false} GatherApart<F, T(!new)>(fs: seq<F>, get: F -> seq<T>)
    ensures Apart(Gather(fs, get)) <==> ApartAmong(fs, get)
  {
    hide Apart, Disjoint;
    if fs != [] {
      var n := |fs| - 1;
      GatherApart(fs[..n], get);
      ApartConcat(Gather(fs[..n], get), get(fs[n]));
      GatherDisjoint(fs[..n], get, get(fs[n]));
      assert forall i :: 0 <= i < n ==> fs[..n][i] == fs[i];
    } else {
      NoneApart<T>();
    }
  }

  lemma NoneApart<T>()
    ensures Apart<T>([])
  {
  }

  lemma AmongApart<F, T(!new)>(fs: seq<F>, get: F -> seq<T>, i: nat, k: nat, j: nat, l: nat)
    requires ApartAmong(fs, get) && i < |fs| && j < |fs| && k < |get(fs[i])| && l < |get(fs[j])|
    ensures get(fs[i])[k] == get(fs[j])[l] <==> i == j && k == l
  {
    assert get(fs[i])[k] in get(fs[i]) && get(fs[j])[l] in get(fs[j]);
    if i < j {
      assert Disjoint(get(fs[i]), get(fs[j]));
    } else if j < i {
      assert Disjoint(get(fs[j]), get(fs[i]));
    } else {
      assert Apart(get(fs[i]));
    }
  }

  // ---- the ids a merge gives ----

  lemma {:induction false} GatherEach<F, R, U>(fs: seq<F>, get: F -> seq<R>, id: R -> U, ids: F -> seq<U>)
    requires forall f :: f in fs ==> ids(f) == Each(get(f), id)
    ensures Each(Gather(fs, get), id) == Gather(fs, ids)
  {
    if fs != [] {
      var init, last := fs[..|fs| - 1], fs[|fs| - 1];
      GatherEach(init, get, id, ids);
      EachAppend(Gather(init, get), get(last), id);
    }
  }

  /** The ids the records of a fragment get. */
  ghost function MergedIds(fs: seq<Fragment>, family: Family): Fragment -> seq<Id> {
    (f: Fragment) => Ids(Renamed(fs, f), family)
  }

  lemma CollectedIds(fs: seq<Fragment>, family: Family)
    ensures Ids(Collected(fs, |fs|), family) == Gather(fs, MergedIds(fs, family))
  {
    hide Renamed, Gather, Each;
    assert fs[..|fs|] == fs;
    var ids := MergedIds(fs, family);
    match family
    case Subjects => GatherEach(fs, (f: Fragment) => Renamed(fs, f).subjects, (r: Subject) => r.id, ids);
    case Anchors => GatherEach(fs, (f: Fragment) => Renamed(fs, f).anchors, (r: Anchor) => r.id, ids);
    case Surfaces => GatherEach(fs, (f: Fragment) => Renamed(fs, f).surfaces, (r: Surface) => r.id, ids);
    case Specimens => GatherEach(fs, (f: Fragment) => Renamed(fs, f).specimens, (r: Specimen) => r.id, ids);
    case Drafts => GatherEach(fs, (f: Fragment) => Renamed(fs, f).drafts, (r: Feature) => r.id, ids);
    case Features => GatherEach(fs, (f: Fragment) => Renamed(fs, f).features, (r: Feature) => r.id, ids);
    case Routes => GatherEach(fs, (f: Fragment) => Renamed(fs, f).routes, (r: Route) => r.id, ids);
  }

  /** No two records of a family, of one fragment or of several, get the same id. */
  ghost predicate RecordsApart(fs: seq<Fragment>) {
    forall family :: ApartAmong(fs, MergedIds(fs, family))
  }

  lemma UniqueMerge(fs: seq<Fragment>)
    ensures UniqueIds(SortDoc(Collected(fs, |fs|))) <==> RecordsApart(fs)
  {
    hide Collected, SortDoc, UniqueIds, Apart, ApartAmong, MergedIds, Ids;
    SortedUniqueIds(Collected(fs, |fs|));
    UniqueIdsApart(Collected(fs, |fs|));
    forall family ensures Apart(Ids(Collected(fs, |fs|), family)) <==> ApartAmong(fs, MergedIds(fs, family)) {
      CollectedIds(fs, family);
      GatherApart(fs, MergedIds(fs, family));
    }
  }

  /** In a merge that succeeds, whatever the fragments are called and spell their ids, ids are equal only for the same record. */
  lemma SuccessKeepsApart(fs: seq<Fragment>, check: Doc -> bool, family: Family, i: nat, k: nat, j: nat, l: nat)
    requires RejectsRepeatedIds(check) && Merged(fs, check).Success? && i < |fs| && j < |fs|
    requires k < |Ids(Renamed(fs, fs[i]), family)| && l < |Ids(Renamed(fs, fs[j]), family)|
    ensures Ids(Renamed(fs, fs[i]), family)[k] == Ids(Renamed(fs, fs[j]), family)[l] <==> i == j && k == l
  {
    hide Collected, SortDoc, UniqueIds, Ids, Renamed, FactsAgree;
    UniqueMerge(fs);
    AmongApart(fs, MergedIds(fs, family), i, k, j, l);
  }

  /** So a reference to one of a fragment's own records names exactly that record in every merge that succeeds. */
  lemma ReferenceFinds(fs: seq<Fragment>, check: Doc -> bool, family: Family, i: nat, id: Id, j: nat, k: nat)
    requires RejectsRepeatedIds(check) && Merged(fs, check).Success? && i < |fs| && j < |fs|
    requires id in Ids(fs[i].doc, family) && k < |Ids(fs[j].doc, family)|
    ensures Ids(Renamed(fs, fs[j]), family)[k] == Maps(fs, fs[i]).Map(family, id) <==>
            i == j && Ids(fs[j].doc, family)[k] == id
  {
    hide Ids, Merged, RejectsRepeatedIds;
    var m :| 0 <= m < |Ids(fs[i].doc, family)| && Ids(fs[i].doc, family)[m] == id;
    RewrittenIds(fs[i].doc, Maps(fs, fs[i]), family);
    RewrittenIds(fs[j].doc, Maps(fs, fs[j]), family);
    SuccessKeepsApart(fs, check, family, j, k, i, m);
  }

  // ---- when a merge would repeat an id ----

  /** No record keeps an id that another one is renamed to. */
  ghost predicate NoCaptures(fs: seq<Fragment>) {
    forall family, i, a, j, b :: 0 <= i < |fs| && 0 <= j < |fs| && Declared(fs[i], family, a) && Declared(fs[j], family, b) ==>
      !Captures(fs, family, a, j, b)
  }

  ghost predicate Declared(f: Fragment, family: Family, id: Id) {
    id in Ids(f.doc, family)
  }

  /** The merged id of record `k`. */
  lemma MergedId(fs: seq<Fragment>, i: nat, family: Family, k: nat)
    requires i < |fs| && k < |Ids(fs[i].doc, family)|
    ensures Ids(Renamed(fs, fs[i]), family)[k] == NewId(fs, fs[i], family, Ids(fs[i].doc, family)[k])
  {
    RewrittenIds(fs[i].doc, Maps(fs, fs[i]), family);
    hide Ids;
    MapsAre(fs, fs[i], family, Ids(fs[i].doc, family)[k]);
  }

  lemma OwnIdsStayApart(fs: seq<Fragment>, family: Family, i: nat)
    requires i < |fs| && Apart(MergedIds(fs, family)(fs[i]))
    ensures Apart(Ids(fs[i].doc, family))
  {
    hide Ids, Renamed;
    var ids := Ids(fs[i].doc, family);
    forall k, l | 0 <= k < l < |ids| ensures ids[k] != ids[l] {
      MergedId(fs, i, family, k);
      MergedId(fs, i, family, l);
    }
  }

  lemma CaptureRepeats(fs: seq<Fragment>, family: Family, i: nat, a: Id, j: nat, b: Id)
    requires i < |fs| && j < |fs| && Declared(fs[i], family, a) && Declared(fs[j], family, b)
    requires Captures(fs, family, a, j, b)
    ensures !ApartAmong(fs, MergedIds(fs, family))
  {
    hide Ids, Renamed;
    var k :| 0 <= k < |Ids(fs[i].doc, family)| && Ids(fs[i].doc, family)[k] == a;
    var l :| 0 <= l < |Ids(fs[j].doc, family)| && Ids(fs[j].doc, family)[l] == b;
    MergedId(fs, i, family, k);
    MergedId(fs, j, family, l);
    if ApartAmong(fs, MergedIds(fs, family)) {
      AmongApart(fs, MergedIds(fs, family), i, k, j, l);
    }
  }

  /** Fragments of which one has captured an id of another cannot be merged. */
  lemma CaptureRefused(fs: seq<Fragment>, check: Doc -> bool, family: Family, i: nat, a: Id, j: nat, b: Id)
    requires RejectsRepeatedIds(check) && i < |fs| && j < |fs| && Declared(fs[i], family, a) && Declared(fs[j], family, b)
    requires Captures(fs, family, a, j, b)
    ensures Merged(fs, check).Failure?
  {
    hide Ids, Renamed, Captures, UniqueIds, SortDoc, Collected, ApartAmong, MergedIds;
    UniqueMerge(fs);
    CaptureRepeats(fs, family, i, a, j, b);
  }

  lemma CaptureExampleRefused(check: Doc -> bool)
    requires RejectsRepeatedIds(check)
    ensures Merged(CaptureFragments(), check).Failure?
  {
    hide Ids, Merged, Captures;
    CaptureExample();
    CaptureRefused(CaptureFragments(), check, Subjects, 1, Local("a", "x"), 0, "x");
  }

  /** Merged ids of distinct records differ when each fragment's own ids do and none is captured. */
  lemma DistinctIds(fs: seq<Fragment>, family: Family, i: nat, k: nat, j: nat, l: nat)
    requires DistinctRepos(fs) && NoCaptures(fs) && i < |fs| && j < |fs|
    requires Apart(Ids(fs[i].doc, family)) && k < |Ids(fs[i].doc, family)| && l < |Ids(fs[j].doc, family)|
    requires i != j || k < l
    ensures Ids(Renamed(fs, fs[i]), family)[k] != Ids(Renamed(fs, fs[j]), family)[l]
  {
    var a, b := Ids(fs[i].doc, family)[k], Ids(fs[j].doc, family)[l];
    hide Ids, Renamed, DistinctRepos, Captures;
    MergedId(fs, i, family, k);
    MergedId(fs, j, family, l);
    assert Declared(fs[i], family, a) && Declared(fs[j], family, b);
    RenamingCollidesExactly(fs, family, i, a, j, b);
  }

  lemma ApartWithoutCaptures(fs: seq<Fragment>, family: Family)
    requires DistinctRepos(fs) && NoCaptures(fs) && forall i :: 0 <= i < |fs| ==> Apart(Ids(fs[i].doc, family))
    ensures ApartAmong(fs, MergedIds(fs, family))
  {
    hide Ids, Renamed, DistinctRepos, NoCaptures;
    var get := MergedIds(fs, family);
    forall i | 0 <= i < |fs| ensures Apart(get(fs[i])) && |get(fs[i])| == |Ids(fs[i].doc, family)| {
        forall k, l | 0 <= k < l < |get(fs[i])| ensures get(fs[i])[k] != get(fs[i])[l] {
        DistinctIds(fs, family, i, k, i, l);
      }
    }
    forall i, j, k, l | 0 <= i < j < |fs| && 0 <= k < |get(fs[i])| && 0 <= l < |get(fs[j])|
      ensures get(fs[i])[k] != get(fs[j])[l]
    {
      DistinctIds(fs, family, i, k, j, l);
    }
  }

  /** With distinct repositories, a merge repeats no id exactly when no fragment does and none has captured another's id. */
  lemma MergeRepeatsNoneExactly(fs: seq<Fragment>)
    requires DistinctRepos(fs)
    ensures UniqueIds(SortDoc(Collected(fs, |fs|))) <==>
            NoCaptures(fs) && forall i :: 0 <= i < |fs| ==> UniqueIds(fs[i].doc)
  {
    hide Ids, Renamed, DistinctRepos, Captures, UniqueIds, Apart, SortDoc, Collected, MergedIds, Declared;
    UniqueMerge(fs);
    forall i | 0 <= i < |fs| { UniqueIdsApart(fs[i].doc); }
    if RecordsApart(fs) {
      forall i, family | 0 <= i < |fs| ensures Apart(Ids(fs[i].doc, family)) {
        assert ApartAmong(fs, MergedIds(fs, family));
        OwnIdsStayApart(fs, family, i);
      }
      forall family, i, a, j, b | 0 <= i < |fs| && 0 <= j < |fs| && Declared(fs[i], family, a) && Declared(fs[j], family, b)
        && Captures(fs, family, a, j, b)
        ensures false
      {
        assert ApartAmong(fs, MergedIds(fs, family));
        CaptureRepeats(fs, family, i, a, j, b);
      }
    }
    if NoCaptures(fs) && forall i :: 0 <= i < |fs| ==> UniqueIds(fs[i].doc) {
      forall family { ApartWithoutCaptures(fs, family); }
    }
  }
}
