/** Grouping protocol implementations by body, and counting the pairs that agree and those that do not. */
module PairCount {
  import opened Wrappers

  const MIN_IMPL_BODY_BYTES: nat := 24
  const MIN_COMPATIBLE_RECORDS: nat := 2
  const UNRESOLVED: string := "unresolved-protocol"
  const TRUNCATED: string := "truncated-body"
  const TOO_LITTLE: string := "insufficient-body-evidence"
  const DIFFERENT_BODY: string := "different-body-behavior"

  /** `body` is the fingerprint of the implementation's body, one character for each byte. */
  datatype Relation = Relation(anchor: string, protocol: Option<string>, truncated: bool, body: string)

  /** A list of the relations under one key. */
  datatype Bucket = Bucket(key: string, members: seq<Relation>)

  /** A table from keys to lists. The order of its keys does not matter for what is counted. */
  type Table = seq<Bucket>

  function ProtocolOf(r: Relation): string {
    match r.protocol
    case Some(p) => p
    case None => ""
  }

  function FingerprintOf(r: Relation): string {
    ProtocolOf(r) + "|" + r.body
  }

  // ---- which relations count ----

  /** Why a relation is left out, if it is. */
  function Exclusion(r: Relation): Option<string> {
    if r.protocol.None? then Some(UNRESOLVED)
    else if r.truncated then Some(TRUNCATED)
    else if |r.body| < MIN_IMPL_BODY_BYTES then Some(TOO_LITTLE)
    else None
  }

  function Eligible(relations: seq<Relation>): seq<Relation> {
    if relations == [] then []
    else
      var last := relations[|relations| - 1];
      Eligible(relations[..|relations| - 1]) + if Exclusion(last).None? then [last] else []
  }

  ghost function ExcludedFor(relations: seq<Relation>, cause: string): nat {
    if relations == [] then 0
    else
      ExcludedFor(relations[..|relations| - 1], cause)
      + if Exclusion(relations[|relations| - 1]) == Some(cause) then 1 else 0
  }

  type Causes = map<string, nat>

  function CauseCount(causes: Causes, cause: string): nat {
    if cause in causes then causes[cause] else 0
  }

  function Bump(causes: Causes, cause: string): Causes {
    causes[cause := CauseCount(causes, cause) + 1]
  }

  // ---- tables ----

  function Push(table: Table, key: string, r: Relation): Table {
    if table == [] then [Bucket(key, [r])]
    else if table[0].key == key then [table[0].(members := table[0].members + [r])] + table[1..]
    else [table[0]] + Push(table[1..], key, r)
  }

  function TableOf(relations: seq<Relation>, key: Relation -> string): Table {
    if relations == [] then []
    else
      var last := relations[|relations| - 1];
      Push(TableOf(relations[..|relations| - 1], key), key(last), last)
  }

  /** The members of all buckets, bucket by bucket. */
  function Concat(table: Table): seq<Relation> {
    if table == [] then [] else table[0].members + Concat(table[1..])
  }

  // ---- pairs ----

  /** The relations that have the key. */
  ghost function CountKey(relations: seq<Relation>, key: Relation -> string, k: string): nat {
    if relations == [] then 0
    else
      CountKey(relations[..|relations| - 1], key, k) + if key(relations[|relations| - 1]) == k then 1 else 0
  }

  /** The pairs of places whose relations have the same key. */
  ghost function SamePairs(relations: seq<Relation>, key: Relation -> string): nat {
    if relations == [] then 0
    else
      var rest, last := relations[..|relations| - 1], relations[|relations| - 1];
      SamePairs(rest, key) + CountKey(rest, key, key(last))
  }

  /** `n` things make this many pairs. */
  ghost function Pairs(n: nat): nat {
    if n == 0 then 0 else Pairs(n - 1) + n - 1
  }

  ghost function PairsInTable(table: Table): nat {
    if table == [] then 0 else Pairs(|table[0].members|) + PairsInTable(table[1..])
  }

  /** Those of the first relations whose body differs from `body`. */
  ghost function OtherBodies(relations: seq<Relation>, body: string): nat {
    if relations == [] then 0
    else
      OtherBodies(relations[..|relations| - 1], body) + if relations[|relations| - 1].body != body then 1 else 0
  }

  /** The pairs of places whose relations have different bodies. */
  ghost function DifferentPairs(relations: seq<Relation>): nat {
    if relations == [] then 0
    else
      var rest, last := relations[..|relations| - 1], relations[|relations| - 1];
      DifferentPairs(rest) + OtherBodies(rest, last.body)
  }

  ghost function DifferentInTable(table: Table): nat {
    if table == [] then 0 else DifferentPairs(table[0].members) + DifferentInTable(table[1..])
  }

  // ---- counting ----

  datatype Counts = Counts(
    excluded: nat,
    excludedCauses: Causes,
    falsePositives: nat,
    falsePositiveCauses: Causes,
    candidateClusters: nat,
    candidateMembers: nat)

  lemma SortedMore(relations: seq<Relation>, i: nat, j: nat)
    requires i < |relations| && j == i + 1
    ensures var before, last := Eligible(relations[..i]), relations[i];
            if Exclusion(last).None? then
              && Eligible(relations[..j]) == before + [last]
              && TableOf(before + [last], ProtocolOf) == Push(TableOf(before, ProtocolOf), ProtocolOf(last), last)
            else Eligible(relations[..j]) == before
    ensures forall cause :: ExcludedFor(relations[..j], cause) ==
                            ExcludedFor(relations[..i], cause) + if Exclusion(relations[i]) == Some(cause) then 1 else 0
  {
    hide Exclusion, Push, ProtocolOf;
    assert relations[..j][..i] == relations[..i];
    var before := Eligible(relations[..i]);
    assert (before + [relations[i]])[..|before|] == before;
  }

  /** The first `i` relations have been sorted out. */
  ghost predicate SortedUpTo(relations: seq<Relation>, i: nat, eligible: Table, excluded: nat, causes: Causes)
    requires i <= |relations|
  {
    && eligible == TableOf(Eligible(relations[..i]), ProtocolOf)
    && excluded + |Eligible(relations[..i])| == i
    && (forall cause :: CauseCount(causes, cause) == ExcludedFor(relations[..i], cause))
    && causes.Keys <= {UNRESOLVED, TRUNCATED, TOO_LITTLE}
  }

  method SortOne(relations: seq<Relation>, i: nat, oldEligible: Table, oldExcluded: nat, oldCauses: Causes)
    returns (eligible: Table, excluded: nat, causes: Causes)
    requires i < |relations| && SortedUpTo(relations, i, oldEligible, oldExcluded, oldCauses)
    ensures SortedUpTo(relations, i + 1, eligible, excluded, causes)
  {
    hide ProtocolOf, Push, TableOf, Eligible, ExcludedFor;
    eligible, excluded, causes := oldEligible, oldExcluded, oldCauses;
    var relation := relations[i];
    SortedMore(relations, i, i + 1);
    if relation.protocol.None? {
      excluded, causes := excluded + 1, Bump(causes, UNRESOLVED);
    } else if relation.truncated {
      excluded, causes := excluded + 1, Bump(causes, TRUNCATED);
    } else if |relation.body| < MIN_IMPL_BODY_BYTES {
      excluded, causes := excluded + 1, Bump(causes, TOO_LITTLE);
    } else {
      eligible := Push(eligible, ProtocolOf(relation), relation);
    }
  }

  /** One pass over the relations: the eligible ones by protocol, the others by cause. */
  method SortOut(relations: seq<Relation>) returns (eligible: Table, excluded: nat, causes: Causes)
    ensures SortedUpTo(relations, |relations|, eligible, excluded, causes)
  {
    eligible, excluded, causes := [], 0, map[];
    for i := 0 to |relations|
      invariant SortedUpTo(relations, i, eligible, excluded, causes)
    {
      hide SortedUpTo;
      eligible, excluded, causes := SortOne(relations, i, eligible, excluded, causes);
    }
  }

  lemma NoRelations()
    ensures forall key :: TableOf([], key) == []
    ensures forall body :: OtherBodies([], body) == 0
    ensures Concat([]) == []
  {
  }

  /** Compares the relation at `left` with every later one. */
  method CompareWith(relations: seq<Relation>, left: nat) returns (different: nat)
    requires left < |relations|
    ensures different == OtherBodies(relations[left + 1..], relations[left].body)
  {
    different := 0;
    for right := left + 1 to |relations|
      invariant different == OtherBodies(relations[left + 1..right], relations[left].body)
    {
      assert relations[left + 1..right + 1][..right - left - 1] == relations[left + 1..right];
      if relations[left].body != relations[right].body {
        different := different + 1;
      }
    }
    assert relations[left + 1..|relations|] == relations[left + 1..];
  }

  /** Compares every two of one protocol's relations. */
  method Compare(relations: seq<Relation>) returns (different: nat)
    ensures different == DifferentPairs(relations)
  {
    hide OtherBodies, DifferentPairs;
    different := 0;
    for left := 0 to |relations|
      invariant different + DifferentFrom(relations, left) == DifferentFrom(relations, 0)
    {
      var more := CompareWith(relations, left);
      different := different + more;
    }
    DifferentBothWays(relations, 0);
    assert relations[0..] == relations;
  }

  /** The same pairs, counted by their earlier place, from place `i` on. */
  ghost function DifferentFrom(relations: seq<Relation>, i: nat): nat
    requires i <= |relations|
    decreases |relations| - i
  {
    if i == |relations| then 0
    else OtherBodies(relations[i + 1..], relations[i].body) + DifferentFrom(relations, i + 1)
  }

  lemma {:induction false} OtherBodiesFront(relations: seq<Relation>, body: string)
    requires relations != []
    ensures OtherBodies(relations, body) ==
            (if relations[0].body != body then 1 else 0) + OtherBodies(relations[1..], body)
  {
    var n := |relations| - 1;
    if n > 0 {
      OtherBodiesFront(relations[..n], body);
      assert relations[..n][1..] == relations[1..][..n - 1];
    }
  }

  lemma {:induction false} DifferentFront(relations: seq<Relation>)
    requires relations != []
    ensures DifferentPairs(relations) == OtherBodies(relations[1..], relations[0].body) + DifferentPairs(relations[1..])
  {
    var n := |relations| - 1;
    if n > 0 {
      DifferentFront(relations[..n]);
      assert relations[..n][1..] == relations[1..][..n - 1];
      OtherBodiesFront(relations[..n], relations[n].body);
    }
  }

  lemma {:induction false} DifferentBothWays(relations: seq<Relation>, i: nat)
    requires i <= |relations|
    ensures DifferentFrom(relations, i) == DifferentPairs(relations[i..])
    decreases |relations| - i
  {
    if i < |relations| {
      DifferentBothWays(relations, i + 1);
      DifferentFront(relations[i..]);
      assert relations[i..][1..] == relations[i + 1..];
    }
  }

  // ---- the groups ----

  lemma ConcatMore(table: Table, i: nat, j: nat)
    requires i < |table| && j == i + 1
    ensures Concat(table[..j]) == Concat(table[..i]) + table[i].members
    ensures DifferentInTable(table[..j]) == DifferentInTable(table[..i]) + DifferentPairs(table[i].members)
  {
    hide DifferentPairs;
    if i > 0 {
      ConcatMore(table[1..], i - 1, j - 1);
      assert table[1..][..i - 1] == table[..i][1..] && table[1..][..j - 1] == table[..j][1..];
    } else {
      assert table[..j] == [table[0]] && table[..i] == [] && [table[0]][1..] == [];
    }
  }

  lemma GroupMore(done: seq<Relation>, r: Relation)
    ensures TableOf(done + [r], FingerprintOf) == Push(TableOf(done, FingerprintOf), FingerprintOf(r), r)
  {
    assert (done + [r])[..|done|] == done;
  }

  /** Adds one protocol's relations to the groups. */
  method AddGroups(groups: Table, relations: seq<Relation>, ghost done: seq<Relation>) returns (grown: Table)
    requires groups == TableOf(done, FingerprintOf)
    ensures grown == TableOf(done + relations, FingerprintOf)
  {
    hide TableOf, Push, FingerprintOf;
    grown := groups;
    assert done + relations[..0] == done;
    for i := 0 to |relations|
      invariant grown == TableOf(done + relations[..i], FingerprintOf)
    {
      GroupMore(done + relations[..i], relations[i]);
      assert done + relations[..i + 1] == done + relations[..i] + [relations[i]];
      grown := Push(grown, FingerprintOf(relations[i]), relations[i]);
    }
    assert relations[..|relations|] == relations;
  }

  ghost function ByProtocol(relations: seq<Relation>): Table {
    TableOf(Eligible(relations), ProtocolOf)
  }

  ghost function Groups(relations: seq<Relation>): Table {
    TableOf(Concat(ByProtocol(relations)), FingerprintOf)
  }

  // ---- the identity ----

  /** The members under a key. */
  ghost function Under(table: Table, k: string): seq<Relation> {
    if table == [] then [] else if table[0].key == k then table[0].members else Under(table[1..], k)
  }

  lemma {:induction false} PushUnder(table: Table, key: string, r: Relation, k: string)
    ensures Under(Push(table, key, r), k) == Under(table, k) + if key == k then [r] else []
  {
    if table != [] && table[0].key != key {
      PushUnder(table[1..], key, r, k);
    }
  }

  lemma {:induction false} PushPairs(table: Table, key: string, r: Relation)
    ensures PairsInTable(Push(table, key, r)) == PairsInTable(table) + |Under(table, key)|
    ensures DifferentInTable(Push(table, key, r)) == DifferentInTable(table) + OtherBodies(Under(table, key), r.body)
  {
    hide OtherBodies;
    if table == [] {
      assert [r][..0] == [] && DifferentPairs([]) == 0;
      NoRelations();
    } else if table[0].key != key {
      PushPairs(table[1..], key, r);
    } else {
      assert (table[0].members + [r])[..|table[0].members|] == table[0].members;
    }
  }

  lemma OtherBodiesMore(relations: seq<Relation>, r: Relation, body: string)
    ensures OtherBodies(relations + [r], body) == OtherBodies(relations, body) + if r.body != body then 1 else 0
  {
    assert (relations + [r])[..|relations|] == relations;
  }

  /** The relations with protocol `k` whose body is not `body`. */
  ghost function MixedWith(relations: seq<Relation>, k: string, body: string): nat {
    if relations == [] then 0
    else
      var last := relations[|relations| - 1];
      MixedWith(relations[..|relations| - 1], k, body) + if ProtocolOf(last) == k && last.body != body then 1 else 0
  }

  /** The pairs with one protocol and two bodies. */
  ghost function MixedPairs(relations: seq<Relation>): nat {
    if relations == [] then 0
    else
      var rest, last := relations[..|relations| - 1], relations[|relations| - 1];
      MixedPairs(rest) + MixedWith(rest, ProtocolOf(last), last.body)
  }

  lemma {:induction false} UnderCounts(relations: seq<Relation>, key: Relation -> string, k: string)
    ensures |Under(TableOf(relations, key), k)| == CountKey(relations, key, k)
  {
    hide Push;
    if relations != [] {
      var rest, last := relations[..|relations| - 1], relations[|relations| - 1];
      UnderCounts(rest, key, k);
      PushUnder(TableOf(rest, key), key(last), last, k);
    }
  }

  lemma {:induction false} UnderMixed(relations: seq<Relation>, k: string, body: string)
    ensures OtherBodies(Under(TableOf(relations, ProtocolOf), k), body) == MixedWith(relations, k, body)
  {
    hide Push, ProtocolOf, OtherBodies;
    if relations == [] {
      NoRelations();
      assert Under([], k) == [];
    } else {
      var rest, last := relations[..|relations| - 1], relations[|relations| - 1];
      UnderMixed(rest, k, body);
      PushUnder(TableOf(rest, ProtocolOf), ProtocolOf(last), last, k);
      var before := Under(TableOf(rest, ProtocolOf), k);
      assert before + [] == before;
      OtherBodiesMore(before, last, body);
    }
  }

  /** The pairs in a table are the pairs of relations with the same key. */
  lemma {:induction false} TablePairs(relations: seq<Relation>, key: Relation -> string)
    ensures PairsInTable(TableOf(relations, key)) == SamePairs(relations, key)
  {
    hide Push, CountKey;
    if relations != [] {
      var rest, last := relations[..|relations| - 1], relations[|relations| - 1];
      TablePairs(rest, key);
      PushPairs(TableOf(rest, key), key(last), last);
      UnderCounts(rest, key, key(last));
    }
  }

  lemma {:induction false} TableDifferences(relations: seq<Relation>)
    ensures DifferentInTable(TableOf(relations, ProtocolOf)) == MixedPairs(relations)
  {
    hide Push, ProtocolOf, MixedWith, OtherBodies;
    if relations != [] {
      var rest, last := relations[..|relations| - 1], relations[|relations| - 1];
      TableDifferences(rest);
      PushPairs(TableOf(rest, ProtocolOf), ProtocolOf(last), last);
      UnderMixed(rest, ProtocolOf(last), last.body);
    }
  }

  // regrouping does not change what pairs there are

  lemma {:induction false} InsertCount(a: seq<Relation>, r: Relation, b: seq<Relation>, key: Relation -> string, k: string)
    ensures CountKey(a + [r] + b, key, k) == CountKey(a + b, key, k) + if key(r) == k then 1 else 0
  {
    if b == [] {
      assert a + [r] + b == a + [r] && (a + [r])[..|a|] == a && a + b == a;
    } else {
      var n := |b| - 1;
      InsertCount(a, r, b[..n], key, k);
      assert (a + [r] + b)[..|a| + |b|] == a + [r] + b[..n] && (a + b)[..|a| + n] == a + b[..n];
    }
  }

  lemma {:induction false} InsertPairs(a: seq<Relation>, r: Relation, b: seq<Relation>, key: Relation -> string)
    ensures SamePairs(a + [r] + b, key) == SamePairs(a + b, key) + CountKey(a + b, key, key(r))
  {
    if b == [] {
      assert a + [r] + b == a + [r] && (a + [r])[..|a|] == a && a + b == a;
    } else {
      var n := |b| - 1;
      InsertPairs(a, r, b[..n], key);
      InsertCount(a, r, b[..n], key, key(b[n]));
      assert (a + [r] + b)[..|a| + |b|] == a + [r] + b[..n] && (a + b)[..|a| + n] == a + b[..n];
    }
  }

  /** Pushing puts a relation somewhere among the others. */
  lemma {:induction false} PushSomewhere(table: Table, key: string, r: Relation) returns (a: seq<Relation>, b: seq<Relation>)
    ensures Concat(table) == a + b && Concat(Push(table, key, r)) == a + [r] + b
  {
    if table == [] {
      a, b := [], [];
      assert [Bucket(key, [r])][1..] == [];
    } else if table[0].key == key {
      a, b := table[0].members, Concat(table[1..]);
    } else {
      a, b := PushSomewhere(table[1..], key, r);
      a := table[0].members + a;
    }
  }

  lemma {:induction false} ConcatCounts(relations: seq<Relation>, table: Relation -> string, key: Relation -> string, k: string)
    ensures CountKey(Concat(TableOf(relations, table)), key, k) == CountKey(relations, key, k)
  {
    hide Push, Concat;
    if relations == [] {
      NoRelations();
    } else {
      var rest, last := relations[..|relations| - 1], relations[|relations| - 1];
      ConcatCounts(rest, table, key, k);
      var a, b := PushSomewhere(TableOf(rest, table), table(last), last);
      InsertCount(a, last, b, key, k);
    }
  }

  lemma {:induction false} ConcatPairs(relations: seq<Relation>, table: Relation -> string, key: Relation -> string)
    ensures SamePairs(Concat(TableOf(relations, table)), key) == SamePairs(relations, key)
  {
    hide Push, Concat, CountKey;
    if relations == [] {
      NoRelations();
    } else {
      var rest, last := relations[..|relations| - 1], relations[|relations| - 1];
      ConcatPairs(rest, table, key);
      ConcatCounts(rest, table, key, key(last));
      var a, b := PushSomewhere(TableOf(rest, table), table(last), last);
      InsertPairs(a, last, b, key);
    }
  }

  /** Two relations of different protocols that fall into one group. */
  predicate Collide(a: Relation, b: Relation) {
    FingerprintOf(a) == FingerprintOf(b) && ProtocolOf(a) != ProtocolOf(b)
  }

  ghost function CollisionsWith(relations: seq<Relation>, r: Relation): nat {
    if relations == [] then 0
    else CollisionsWith(relations[..|relations| - 1], r) + if Collide(relations[|relations| - 1], r) then 1 else 0
  }

  ghost function Collisions(relations: seq<Relation>): nat {
    if relations == [] then 0
    else Collisions(relations[..|relations| - 1]) + CollisionsWith(relations[..|relations| - 1], relations[|relations| - 1])
  }

  lemma SameFingerprint(a: Relation, b: Relation)
    requires ProtocolOf(a) == ProtocolOf(b)
    ensures FingerprintOf(a) == FingerprintOf(b) <==> a.body == b.body
  {
    var n := |ProtocolOf(a)| + 1;
    assert FingerprintOf(a)[n..] == a.body && FingerprintOf(b)[n..] == b.body;
  }

  lemma {:induction false} OneAgainstAll(relations: seq<Relation>, r: Relation)
    ensures MixedWith(relations, ProtocolOf(r), r.body) + CountKey(relations, FingerprintOf, FingerprintOf(r)) ==
            CountKey(relations, ProtocolOf, ProtocolOf(r)) + CollisionsWith(relations, r)
  {
    hide ProtocolOf, FingerprintOf;
    if relations != [] {
      var last := relations[|relations| - 1];
      OneAgainstAll(relations[..|relations| - 1], r);
      if ProtocolOf(last) == ProtocolOf(r) { SameFingerprint(last, r); }
    }
  }

  lemma {:induction false} PairsAddUp(relations: seq<Relation>)
    ensures MixedPairs(relations) + SamePairs(relations, FingerprintOf) ==
            SamePairs(relations, ProtocolOf) + Collisions(relations)
  {
    hide MixedWith, CountKey, CollisionsWith, ProtocolOf, FingerprintOf;
    if relations != [] {
      var rest, last := relations[..|relations| - 1], relations[|relations| - 1];
      PairsAddUp(rest);
      OneAgainstAll(rest, last);
    }
  }

  lemma {:induction false} NoneCollideWith(relations: seq<Relation>, r: Relation)
    ensures CollisionsWith(relations, r) == 0 <==> forall i :: 0 <= i < |relations| ==> !Collide(relations[i], r)
  {
    hide Collide;
    if relations != [] {
      var n := |relations| - 1;
      NoneCollideWith(relations[..n], r);
      assert forall i :: 0 <= i < n ==> relations[..n][i] == relations[i];
    }
  }

  /** No two relations of different protocols fall into one group. */
  ghost predicate NoneMixed(relations: seq<Relation>) {
    forall i, j :: 0 <= i < j < |relations| ==> !Collide(relations[i], relations[j])
  }

  lemma {:induction false} NoneCollide(relations: seq<Relation>)
    ensures Collisions(relations) == 0 <==> NoneMixed(relations)
  {
    hide Collide, CollisionsWith;
    if relations != [] {
      var n := |relations| - 1;
      NoneCollide(relations[..n]);
      NoneCollideWith(relations[..n], relations[n]);
      assert forall i :: 0 <= i < n ==> relations[..n][i] == relations[i];
    }
  }

  /** False positives and pairs within the groups make up the pairs within the protocols exactly when no groups mix protocols. */
  lemma PairIdentity(relations: seq<Relation>)
    ensures DifferentInTable(ByProtocol(relations)) + PairsInTable(Groups(relations)) == PairsInTable(ByProtocol(relations))
            <==> NoneMixed(Eligible(relations))
  {
    hide Eligible, Collide, Concat, TableOf, DifferentInTable, PairsInTable, SamePairs, MixedPairs, Collisions, NoneMixed;
    var eligible := Eligible(relations);
    TableDifferences(eligible);
    TablePairs(eligible, ProtocolOf);
    TablePairs(Concat(TableOf(eligible, ProtocolOf)), FingerprintOf);
    ConcatPairs(eligible, ProtocolOf, FingerprintOf);
    PairsAddUp(eligible);
    NoneCollide(eligible);
  }

  /** Protocol names without a bar never collide. */
  lemma NamesWithoutBar(a: Relation, b: Relation)
    requires '|' !in ProtocolOf(a) && '|' !in ProtocolOf(b)
    ensures !Collide(a, b)
  {
    var p, q := ProtocolOf(a), ProtocolOf(b);
    var s, t := FingerprintOf(a), FingerprintOf(b);
    assert s[|p|] == '|' && t[|q|] == '|' && s[..|p|] == p && t[..|q|] == q;
    assert s == t ==> |p| == |q| by {
      assert |p| < |q| ==> t[|p|] == q[|p|];
      assert |q| < |p| ==> s[|q|] == p[|q|];
    }
  }

  /** Every relation is excluded for one cause or eligible. */
  lemma {:induction false} EveryRelationCounted(relations: seq<Relation>)
    ensures |Eligible(relations)| + ExcludedFor(relations, UNRESOLVED) + ExcludedFor(relations, TRUNCATED)
            + ExcludedFor(relations, TOO_LITTLE) == |relations|
  {
    assert UNRESOLVED[0] != TRUNCATED[0] && UNRESOLVED[0] != TOO_LITTLE[0] && TRUNCATED[0] != TOO_LITTLE[0];
    if relations != [] {
      EveryRelationCounted(relations[..|relations| - 1]);
    }
  }

  /** Two eligible implementations of different protocols in one group. */
  lemma BarsCollide(body: string)
    requires |body| >= MIN_IMPL_BODY_BYTES
    ensures var a, b := Relation("a", Some("p|q"), false, body), Relation("b", Some("p"), false, "q|" + body);
            Exclusion(a) == None && Exclusion(b) == None && Collide(a, b)
  {
    var a, b := Relation("a", Some("p|q"), false, body), Relation("b", Some("p"), false, "q|" + body);
    assert "p|q" + "|" + body == "p" + "|" + ("q|" + body);
    assert |"p|q"| != |"p"|;
  }

  // ---- the clusters ----

  /** Some other relation has the same fingerprint. */
  ghost predicate Shared(all: seq<Relation>, fingerprint: string) {
    CountKey(all, FingerprintOf, fingerprint) >= MIN_COMPATIBLE_RECORDS
  }

  ghost function SharedFingerprints(all: seq<Relation>): set<string> {
    set r | r in all && Shared(all, FingerprintOf(r)) :: FingerprintOf(r)
  }

  /** Those of the relations that share their fingerprint within `all`. */
  ghost function CountShared(relations: seq<Relation>, all: seq<Relation>): nat {
    if relations == [] then 0
    else
      CountShared(relations[..|relations| - 1], all)
      + if Shared(all, FingerprintOf(relations[|relations| - 1])) then 1 else 0
  }

  predicate IsCluster(bucket: Bucket) {
    |bucket.members| >= MIN_COMPATIBLE_RECORDS
  }

  ghost function ClustersIn(table: Table): nat {
    if table == [] then 0 else (if IsCluster(table[0]) then 1 else 0) + ClustersIn(table[1..])
  }

  ghost function ClusterMembers(table: Table): nat {
    if table == [] then 0 else (if IsCluster(table[0]) then |table[0].members| else 0) + ClusterMembers(table[1..])
  }

  method CountClusters(groups: Table) returns (clusters: nat, members: nat)
    ensures clusters == ClustersIn(groups) && members == ClusterMembers(groups)
  {
    clusters, members := 0, 0;
    assert groups[0..] == groups;
    for i := 0 to |groups|
      invariant clusters + ClustersIn(groups[i..]) == ClustersIn(groups)
      invariant members + ClusterMembers(groups[i..]) == ClusterMembers(groups)
    {
      assert groups[i..][1..] == groups[i + 1..];
      if |groups[i].members| >= MIN_COMPATIBLE_RECORDS {
        clusters, members := clusters + 1, members + |groups[i].members|;
      }
    }
  }

  ghost function Keys(table: Table): set<string> {
    set bucket | bucket in table :: bucket.key
  }

  /** Each key has one list, of relations that have it. */
  ghost predicate Keyed(table: Table, key: Relation -> string) {
    table == [] ||
    (table[0].key !in Keys(table[1..]) && (forall r :: r in table[0].members ==> key(r) == table[0].key) && Keyed(table[1..], key))
  }

  lemma {:induction false} PushKeyed(table: Table, key: Relation -> string, r: Relation)
    requires Keyed(table, key)
    ensures Keys(Push(table, key(r), r)) == Keys(table) + {key(r)} && Keyed(Push(table, key(r), r), key)
  {
    if table == [] {
      assert Push(table, key(r), r)[0] in Push(table, key(r), r);
    } else {
      KeysFirst(table);
      var pushed := Push(table, key(r), r);
      if table[0].key == key(r) {
        assert pushed[1..] == table[1..];
      } else {
        PushKeyed(table[1..], key, r);
        assert pushed[1..] == Push(table[1..], key(r), r);
      }
      KeysFirst(pushed);
    }
  }

  lemma KeysFirst(table: Table)
    requires table != []
    ensures Keys(table) == {table[0].key} + Keys(table[1..])
  {
    forall bucket ensures bucket in table <==> bucket == table[0] || bucket in table[1..] {
      assert table == [table[0]] + table[1..];
    }
  }

  lemma {:induction false} TableKeyed(relations: seq<Relation>, key: Relation -> string)
    ensures Keyed(TableOf(relations, key), key)
  {
    hide Push, Keyed;
    if relations == [] {
      NoKeys(key);
    } else {
      var rest, last := relations[..|relations| - 1], relations[|relations| - 1];
      TableKeyed(rest, key);
      PushKeyed(TableOf(rest, key), key, last);
    }
  }

  lemma NoKeys(key: Relation -> string)
    ensures Keyed([], key)
  {
  }

  lemma {:induction false} CountSharedAdds(a: seq<Relation>, b: seq<Relation>, all: seq<Relation>)
    ensures CountShared(a + b, all) == CountShared(a, all) + CountShared(b, all)
  {
    hide Shared;
    if b == [] {
      assert a + b == a;
    } else {
      var n := |b| - 1;
      CountSharedAdds(a, b[..n], all);
      assert (a + b)[..|a| + n] == a + b[..n] && (a + b)[|a| + n] == b[n];
    }
  }

  lemma {:induction false} CountSharedSame(relations: seq<Relation>, all: seq<Relation>, k: string)
    requires forall r :: r in relations ==> FingerprintOf(r) == k
    ensures CountShared(relations, all) == if Shared(all, k) then |relations| else 0
  {
    hide Shared, FingerprintOf;
    if relations != [] {
      CountSharedSame(relations[..|relations| - 1], all, k);
    }
  }

  /** The sizes of the lists are those of the relations with the key. */
  ghost predicate Sized(table: Table, all: seq<Relation>) {
    forall k :: k in Keys(table) ==> |Under(table, k)| == CountKey(all, FingerprintOf, k)
  }

  ghost function SharedKeys(table: Table, all: seq<Relation>): set<string> {
    set k | k in Keys(table) && Shared(all, k)
  }

  lemma SharedFirst(table: Table, all: seq<Relation>)
    requires table != [] && table[0].key !in Keys(table[1..])
    ensures |SharedKeys(table, all)| == |SharedKeys(table[1..], all)| + if Shared(all, table[0].key) then 1 else 0
  {
    hide Keys, Shared;
    KeysFirst(table);
    var rest := SharedKeys(table[1..], all);
    assert SharedKeys(table, all) == if Shared(all, table[0].key) then {table[0].key} + rest else rest;
  }

  lemma SizedFirst(table: Table, all: seq<Relation>)
    requires table != [] && table[0].key !in Keys(table[1..]) && Sized(table, all)
    ensures Sized(table[1..], all) && (IsCluster(table[0]) <==> Shared(all, table[0].key))
  {
    hide CountKey;
    KeysFirst(table);
    assert forall k :: k in Keys(table[1..]) ==> Under(table, k) == Under(table[1..], k);
  }

  lemma {:induction false} ClustersAreShared(table: Table, all: seq<Relation>)
    requires Keyed(table, FingerprintOf) && Sized(table, all)
    ensures ClustersIn(table) == |SharedKeys(table, all)|
    ensures ClusterMembers(table) == CountShared(Concat(table), all)
  {
    hide Shared, Sized, IsCluster, FingerprintOf;
    if table != [] {
      SizedFirst(table, all);
      SharedFirst(table, all);
      ClustersAreShared(table[1..], all);
      CountSharedSame(table[0].members, all, table[0].key);
      CountSharedAdds(table[0].members, Concat(table[1..]), all);
    } else {
      assert SharedKeys(table, all) == {};
    }
  }

  lemma {:induction false} CountSharedIsCount(relations: seq<Relation>, all: seq<Relation>)
    ensures CountShared(relations, all) ==
            CountKey(relations, r => if Shared(all, FingerprintOf(r)) then "shared" else "", "shared")
  {
    hide Shared, FingerprintOf;
    if relations != [] {
      CountSharedIsCount(relations[..|relations| - 1], all);
    }
  }

  lemma {:induction false} CountedIsThere(relations: seq<Relation>, key: Relation -> string, k: string)
    ensures CountKey(relations, key, k) > 0 <==> exists r :: r in relations && key(r) == k
  {
    if relations != [] {
      var n := |relations| - 1;
      CountedIsThere(relations[..n], key, k);
      assert relations == relations[..n] + [relations[n]];
    }
  }

  lemma {:induction false} NotUnder(table: Table, k: string)
    requires k !in Keys(table)
    ensures Under(table, k) == []
  {
    if table != [] {
      KeysFirst(table);
      NotUnder(table[1..], k);
    }
  }

  /** There is a cluster for every fingerprint that eligible relations share, and its members are those relations. */
  lemma ClustersExact(relations: seq<Relation>)
    ensures ClustersIn(Groups(relations)) == |SharedFingerprints(Eligible(relations))|
    ensures ClusterMembers(Groups(relations)) == CountShared(Eligible(relations), Eligible(relations))
  {
    hide TableOf, Eligible, FingerprintOf, ProtocolOf, CountKey, Concat, Keyed, ClustersIn, ClusterMembers, CountShared, Under, Keys;
    var all := Eligible(relations);
    var table, regrouped := Groups(relations), Concat(ByProtocol(relations));
    forall k ensures |Under(table, k)| == CountKey(all, FingerprintOf, k) {
      UnderCounts(regrouped, FingerprintOf, k);
      ConcatCounts(all, ProtocolOf, FingerprintOf, k);
    }
    TableKeyed(regrouped, FingerprintOf);
    ClustersAreShared(table, all);
    forall k ensures k in SharedFingerprints(all) <==> k in Keys(table) && Shared(all, k) {
      CountedIsThere(all, FingerprintOf, k);
      if k !in Keys(table) { NotUnder(table, k); }
    }
    assert SharedFingerprints(all) == SharedKeys(table, all);
    var mark := (r: Relation) => if Shared(all, FingerprintOf(r)) then "shared" else "";
    CountSharedIsCount(Concat(table), all);
    CountSharedIsCount(all, all);
    ConcatCounts(regrouped, FingerprintOf, mark, "shared");
    ConcatCounts(all, ProtocolOf, mark, "shared");
  }

  /** The counters and the groups from which the clusters are made. */
  method ImplementationShapes(relations: seq<Relation>) returns (c: Counts, groups: Table)
    ensures c.excluded + |Eligible(relations)| == |relations|
    ensures forall cause :: CauseCount(c.excludedCauses, cause) == ExcludedFor(relations, cause)
    ensures c.excludedCauses.Keys <= {UNRESOLVED, TRUNCATED, TOO_LITTLE}
    ensures c.falsePositives == DifferentInTable(ByProtocol(relations))
    ensures c.falsePositiveCauses == if c.falsePositives == 0 then map[] else map[DIFFERENT_BODY := c.falsePositives]
    ensures groups == Groups(relations)
    ensures c.candidateClusters == |SharedFingerprints(Eligible(relations))|
    ensures c.candidateMembers == CountShared(Eligible(relations), Eligible(relations))
  {
    hide TableOf, Eligible, ExcludedFor, FingerprintOf, ProtocolOf, DifferentPairs;
    var eligible, excluded, causes := SortOut(relations);
    assert relations[..|relations|] == relations;
    var different := 0;
    groups := [];
    NoRelations();
    for i := 0 to |eligible|
      invariant different == DifferentInTable(eligible[..i])
      invariant groups == TableOf(Concat(eligible[..i]), FingerprintOf)
    {
      ConcatMore(eligible, i, i + 1);
      var more := Compare(eligible[i].members);
      different := different + more;
      groups := AddGroups(groups, eligible[i].members, Concat(eligible[..i]));
    }
    assert eligible[..|eligible|] == eligible;
    var clusters, members := CountClusters(groups);
    ClustersExact(relations);
    var differentCauses := if different == 0 then map[] else map[DIFFERENT_BODY := different];
    c := Counts(excluded, causes, different, differentCauses, clusters, members);
  }
}
