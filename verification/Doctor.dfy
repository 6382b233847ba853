/** The doctor's rows for unclaimed items, and what adopting them as drafts does to coverage. */
module Doctor {
  import opened Ordering
  import opened Coverage

  function RowsOf(items: seq<ClaimableItem>): seq<MissingDraftRow> {
    if items == [] then [] else RowsOf(items[..|items| - 1]) + [RowOf(items[|items| - 1])]
  }

  /** The rows of the unclaimed items, by kind name, id and owner. */
  ghost function Rows(doc: Catalog): seq<MissingDraftRow> {
    SortBy(RowsOf(Unclaimed(doc, ClaimableItems(doc))), RowOrder)
  }

  method MissingDraftRows(doc: Catalog) returns (rows: seq<MissingDraftRow>)
    ensures rows == Rows(doc)
  {
    hide ClaimableItems, Owners, Unclaimed, RowsOf, Lookup;
    var counts := ClaimCounts(doc);
    var items := ClaimableItems(doc);
    rows := [];
    NoRows(doc, items);
    for i := 0 to |items|
      invariant rows == RowsOf(Unclaimed(doc, items[..i]))
    {
      RowsMore(doc, items, i, i + 1);
      EntryIsOwned(counts, KeyOf(items[i]));
      if KeyOf(items[i]) !in counts {
        rows := rows + [RowOf(items[i])];
      }
    }
    assert items[..|items|] == items;
    rows := SortBy(rows, RowOrder);
  }

  lemma EntryIsOwned(counts: Counts, key: ClaimKey)
    requires NoEmptyEntry(counts)
    ensures key in counts <==> Lookup(counts, key) != []
  {
  }

  lemma NoRows(doc: Catalog, items: seq<ClaimableItem>)
    ensures RowsOf(Unclaimed(doc, items[..0])) == []
  {
  }

  lemma RowsMore(doc: Catalog, items: seq<ClaimableItem>, i: nat, j: nat)
    requires i < |items| && j == i + 1
    ensures RowsOf(Unclaimed(doc, items[..j])) ==
            RowsOf(Unclaimed(doc, items[..i])) + if Owners(doc, KeyOf(items[i])) == [] then [RowOf(items[i])] else []
  {
    hide Owners;
    ItemsMore(doc, items, i, j);
    var before := Unclaimed(doc, items[..i]);
    assert before + [] == before && (before + [items[i]])[..|before|] == before;
  }

  // ---- the doctor and the gate agree ----

  lemma {:induction false} OwnedOrUnclaimed(doc: Catalog, items: seq<ClaimableItem>)
    requires forall key :: |Owners(doc, key)| <= 1
    ensures OwnedOnce(doc, items) + |Unclaimed(doc, items)| == |items|
  {
    hide Owners;
    if items != [] {
      OwnedOrUnclaimed(doc, items[..|items| - 1]);
    }
  }

  /** When coverage passes, every item is covered or advisory, and the doctor's rows are the advisory items. */
  lemma DoctorAgreesWithGate(doc: Catalog, s: StrictSets, audiences: Audiences)
    requires Passes(doc, s, audiences)
    ensures var report := ReportOf(doc, s, audiences);
            && report.covered + |report.advisoryMissing| == |ClaimableItems(doc)|
            && |Rows(doc)| == |report.advisoryMissing|
            && multiset(Rows(doc)) == multiset(RowsOf(report.advisoryMissing))
            && Sorted(Rows(doc), RowOrder)
  {
    hide Owners, ClaimableItems, Unclaimed, OwnedOnce, RowsOf;
    forall key ensures |Owners(doc, key)| <= 1 {
      assert !Complains(doc, s, audiences, DuplicateClaim(key, Owners(doc, key)));
    }
    OwnedOrUnclaimed(doc, ClaimableItems(doc));
    var rows := RowsOf(Unclaimed(doc, ClaimableItems(doc)));
    SortBySorts(rows, RowOrder);
    RowsLength(Unclaimed(doc, ClaimableItems(doc)));
  }

  lemma {:induction false} RowsLength(items: seq<ClaimableItem>)
    ensures |RowsOf(items)| == |items|
  {
    if items != [] {
      RowsLength(items[..|items| - 1]);
    }
  }

  // ---- adopting the rows ----

  /** The draft a row is rendered as: it claims the row's item and nothing else. */
  function DraftOf(row: MissingDraftRow, name: string): Claimant {
    match row.kind
    case "anchor" => Claimant(name, [row.id], [], [])
    case "surface" => Claimant(name, [], [row.id], [])
    case "specimen" => Claimant(name, [], [], [row.id])
    case _ => Claimant(name, [], [], [])
  }

  /** The drafts of the rows; `name` makes a row's feature id. */
  function DraftsOf(rows: seq<MissingDraftRow>, name: MissingDraftRow -> string): seq<Claimant> {
    if rows == [] then [] else [DraftOf(rows[0], name(rows[0]))] + DraftsOf(rows[1..], name)
  }

  ghost function Adopt(doc: Catalog, name: MissingDraftRow -> string): Catalog {
    doc.(drafts := doc.drafts + DraftsOf(Rows(doc), name))
  }

  /** How many of the rows are about an item. */
  ghost function RowCount(rows: seq<MissingDraftRow>, key: ClaimKey): nat {
    if rows == [] then 0
    else (if rows[0].kind == KindName(key.kind) && rows[0].id == key.id then 1 else 0) + RowCount(rows[1..], key)
  }

  ghost function ItemCount(items: seq<ClaimableItem>, key: ClaimKey): nat {
    if items == [] then 0
    else ItemCount(items[..|items| - 1], key) + if KeyOf(items[|items| - 1]) == key then 1 else 0
  }

  lemma {:induction false} OwnersAppend(a: seq<Claimant>, b: seq<Claimant>, key: ClaimKey)
    ensures OwnersAmong(a + b, key) == OwnersAmong(a, key) + OwnersAmong(b, key)
  {
    hide Listed, Times;
    if b == [] {
      assert a + b == a;
    } else {
      var n := |b| - 1;
      OwnersAppend(a, b[..n], key);
      assert (a + b)[..|a + b| - 1] == a + b[..n] && (a + b)[|a + b| - 1] == b[n];
    }
  }

  lemma OwnersOfOne(row: MissingDraftRow, name: string, key: ClaimKey)
    requires row.kind in {"anchor", "surface", "specimen"}
    ensures |OwnersAmong([DraftOf(row, name)], key)| == if row.kind == KindName(key.kind) && row.id == key.id then 1 else 0
  {
    var draft := DraftOf(row, name);
    var ids := Listed(draft, key.kind);
    assert [draft][..0] == [] && OwnersAmong([draft], key) == OwnersAmong([], key) + Times(name, ids, key.id);
    if ids != [] {
      assert ids[..0] == [] && Times(name, ids, key.id) == Times(name, [], key.id) + if row.id == key.id then [name] else [];
    }
  }

  /** Each row about an item gives it one more owner. */
  lemma {:induction false} OwnersOfDrafts(rows: seq<MissingDraftRow>, name: MissingDraftRow -> string, key: ClaimKey)
    requires forall row :: row in rows ==> row.kind in {"anchor", "surface", "specimen"}
    ensures |OwnersAmong(DraftsOf(rows, name), key)| == RowCount(rows, key)
  {
    hide OwnersAmong, DraftOf;
    if rows == [] {
      NoOwners(key);
    } else {
      OwnersOfDrafts(rows[1..], name, key);
      OwnersOfOne(rows[0], name(rows[0]), key);
      OwnersAppend([DraftOf(rows[0], name(rows[0]))], DraftsOf(rows[1..], name), key);
    }
  }

  lemma NoOwners(key: ClaimKey)
    ensures OwnersAmong([], key) == []
  {
  }

  lemma {:induction false} InsertCount(row: MissingDraftRow, rows: seq<MissingDraftRow>, key: ClaimKey)
    ensures RowCount(Insert(row, rows, RowOrder), key) == RowCount([row] + rows, key)
  {
    hide KeyLeq;
    assert ([row] + rows)[1..] == rows;
    if rows != [] && !KeyLeq(RowOrder(row), RowOrder(rows[0])) {
      InsertCount(row, rows[1..], key);
      assert ([row] + rows[1..])[1..] == rows[1..];
      var rest := Insert(row, rows[1..], RowOrder);
      assert ([rows[0]] + rest)[1..] == rest;
    }
  }

  lemma {:induction false} SortCount(rows: seq<MissingDraftRow>, key: ClaimKey)
    ensures RowCount(SortBy(rows, RowOrder), key) == RowCount(rows, key)
  {
    if rows != [] {
      SortCount(rows[1..], key);
      InsertCount(rows[0], SortBy(rows[1..], RowOrder), key);
      assert ([rows[0]] + SortBy(rows[1..], RowOrder))[1..] == SortBy(rows[1..], RowOrder);
    }
  }

  lemma {:induction false} AppendCount(rows: seq<MissingDraftRow>, row: MissingDraftRow, key: ClaimKey)
    ensures RowCount(rows + [row], key) == RowCount(rows, key) + RowCount([row], key)
  {
    if rows != [] {
      AppendCount(rows[1..], row, key);
      assert (rows + [row])[1..] == rows[1..] + [row];
    } else {
      assert rows + [row] == [row];
    }
  }

  lemma {:induction false} RowsCountItems(items: seq<ClaimableItem>, key: ClaimKey)
    ensures RowCount(RowsOf(items), key) == ItemCount(items, key)
    ensures forall row :: row in RowsOf(items) ==> row.kind in {"anchor", "surface", "specimen"}
  {
    if items != [] {
      var last := items[|items| - 1];
      RowsCountItems(items[..|items| - 1], key);
      AppendCount(RowsOf(items[..|items| - 1]), RowOf(last), key);
      assert [RowOf(last)][1..] == [];
      assert RowCount([RowOf(last)], key) == if KeyOf(last) == key then 1 else 0;
    }
  }

  /** Adopting gives an item one more owner for each of its unclaimed copies. */
  lemma AdoptedOwners(doc: Catalog, name: MissingDraftRow -> string, key: ClaimKey)
    ensures |Owners(Adopt(doc, name), key)| == |Owners(doc, key)| + ItemCount(Unclaimed(doc, ClaimableItems(doc)), key)
  {
    hide ClaimableItems, Unclaimed, OwnersAmong, ItemCount, RowCount, DraftsOf, RowsOf;
    var missing := Unclaimed(doc, ClaimableItems(doc));
    RowsCountItems(missing, key);
    SortCount(RowsOf(missing), key);
    SortBySorts(RowsOf(missing), RowOrder);
    forall row | row in Rows(doc) ensures row.kind in {"anchor", "surface", "specimen"} {
      InMultiset(Rows(doc), RowsOf(missing), row);
    }
    OwnersOfDrafts(Rows(doc), name, key);
    OwnersAppend(doc.drafts, DraftsOf(Rows(doc), name), key);
  }

  ghost predicate NoDuplicateClaims(doc: Catalog) {
    forall key :: |Owners(doc, key)| <= 1
  }

  /** No two unclaimed items share kind and id. */
  ghost predicate UniqueMissing(doc: Catalog) {
    UniqueItems(Unclaimed(doc, ClaimableItems(doc)))
  }

  ghost predicate UniqueItems(items: seq<ClaimableItem>) {
    forall i, j :: 0 <= i < j < |items| ==> KeyOf(items[i]) != KeyOf(items[j])
  }

  lemma {:induction false} UniqueCountsOnce(items: seq<ClaimableItem>, key: ClaimKey)
    requires UniqueItems(items)
    ensures ItemCount(items, key) <= 1
  {
    hide KeyOf;
    if items != [] {
      var n := |items| - 1;
      UniqueCountsOnce(items[..n], key);
      CountIsPositive(items[..n], key);
    }
  }

  /** An item listed twice is counted twice. */
  lemma {:induction false} RepeatedCountsTwice(items: seq<ClaimableItem>, i: nat, j: nat)
    requires i < j < |items| && KeyOf(items[i]) == KeyOf(items[j])
    ensures ItemCount(items, KeyOf(items[j])) >= 2
  {
    hide KeyOf;
    var n, key := |items| - 1, KeyOf(items[j]);
    assert ItemCount(items, key) == ItemCount(items[..n], key) + if KeyOf(items[n]) == key then 1 else 0;
    if j < n {
      RepeatedCountsTwice(items[..n], i, j);
    } else {
      CountIsPositive(items[..n], key);
      assert items[..n][i] == items[i];
    }
  }

  lemma {:induction false} CountIsPositive(items: seq<ClaimableItem>, key: ClaimKey)
    ensures ItemCount(items, key) > 0 <==> exists i :: 0 <= i < |items| && KeyOf(items[i]) == key
  {
    hide KeyOf;
    if items != [] {
      var n := |items| - 1;
      CountIsPositive(items[..n], key);
      if i :| 0 <= i < n && KeyOf(items[i]) == key {
        assert items[..n][i] == items[i];
      }
    }
  }

  lemma {:induction false} UnclaimedCount(doc: Catalog, items: seq<ClaimableItem>, key: ClaimKey)
    ensures Owners(doc, key) != [] ==> ItemCount(Unclaimed(doc, items), key) == 0
  {
    hide Owners;
    if items != [] {
      UnclaimedCount(doc, items[..|items| - 1], key);
      var before := Unclaimed(doc, items[..|items| - 1]);
      assert before + [] == before && (before + [items[|items| - 1]])[..|before|] == before;
    }
  }

  /** Adopting every row claims an item twice exactly when an item was claimed twice or listed twice before. */
  lemma AdoptionDuplicates(doc: Catalog, name: MissingDraftRow -> string)
    ensures NoDuplicateClaims(Adopt(doc, name)) <==> NoDuplicateClaims(doc) && UniqueMissing(doc)
  {
    hide Owners, ClaimableItems, Unclaimed, Adopt, ItemCount;
    var missing := Unclaimed(doc, ClaimableItems(doc));
    forall key ensures |Owners(Adopt(doc, name), key)| == |Owners(doc, key)| + ItemCount(missing, key) {
      AdoptedOwners(doc, name, key);
    }
    forall key ensures Owners(doc, key) != [] ==> ItemCount(missing, key) == 0 {
      UnclaimedCount(doc, ClaimableItems(doc), key);
    }
    if NoDuplicateClaims(Adopt(doc, name)) {
      forall key ensures |Owners(doc, key)| <= 1 {
        assert |Owners(Adopt(doc, name), key)| <= 1;
      }
      forall i, j | 0 <= i < j < |missing| ensures KeyOf(missing[i]) != KeyOf(missing[j]) {
        assert |Owners(Adopt(doc, name), KeyOf(missing[j]))| <= 1;
        if KeyOf(missing[i]) == KeyOf(missing[j]) { RepeatedCountsTwice(missing, i, j); }
      }
    }
    if NoDuplicateClaims(doc) && UniqueMissing(doc) {
      forall key ensures |Owners(Adopt(doc, name), key)| <= 1 {
        UniqueCountsOnce(missing, key);
      }
    }
  }

  /** After adopting every row nothing is unclaimed, so nothing is `unindexed` however strict the setting. */
  lemma AdoptionCloses(doc: Catalog, name: MissingDraftRow -> string, s: StrictSets, audiences: Audiences, key: ClaimKey)
    ensures Rows(Adopt(doc, name)) == []
    ensures !Complains(Adopt(doc, name), s, audiences, Unindexed(key))
  {
    hide Owners, ClaimableItems, Requires, ItemCount;
    var adopted := Adopt(doc, name);
    var items := ClaimableItems(doc);
    var missing := Unclaimed(doc, items);
    SameItems(doc, name);
    forall item | item in items ensures Owners(adopted, KeyOf(item)) != [] {
      AdoptedOwners(doc, name, KeyOf(item));
      if Owners(doc, KeyOf(item)) == [] {
        UnclaimedHas(doc, items, item);
        var i :| 0 <= i < |missing| && missing[i] == item;
        CountIsPositive(missing, KeyOf(item));
      }
    }
    forall item ensures item !in Unclaimed(adopted, items) {
      UnclaimedHas(adopted, items, item);
    }
    assert Unclaimed(adopted, items) == [] by {
      if Unclaimed(adopted, items) != [] { assert Unclaimed(adopted, items)[0] in Unclaimed(adopted, items); }
    }
  }

  lemma SameItems(doc: Catalog, name: MissingDraftRow -> string)
    ensures ClaimableItems(Adopt(doc, name)) == ClaimableItems(doc)
  {
  }
}
