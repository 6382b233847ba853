/** The protocol roles a document authors: which members satisfy theirs, and which leave a gap. */
module ProtocolRoles {
  import opened Wrappers
  import opened IndexDocs
  import opened EdgeSearch

  const DELEGATION_RELS: set<string> := {"delegates-to"}
  const PROTOCOL_DEPENDENCY_RELS: set<string> := {"depends-on", "reuses", "composes", "delegates-to"}
  const PROTOCOL_ROLE_REL: string := "protocol-role"
  const NO_OWNER_DEPENDENCY: string := "no-protocol-owner-dependency"

  /** An implementation of a protocol, or of one that could not be resolved. */
  datatype ProtocolRelation = ProtocolRelation(anchor: Id, resolution: Option<string>)

  datatype Input = Input(
    features: seq<Feature>,
    declarations: seq<Declaration>,
    relations: seq<ProtocolRelation>,
    edges: seq<Edge>)

  datatype Classification = Classification(
    configuredMembers: nat,
    satisfiedMembers: nat,
    gapMembers: nat,
    policyMembers: nat,
    policyCauses: map<string, nat>)

  datatype Finding = Finding(cluster: string, left: Id, right: Id, role: string, declaration: string)

  // ---- the tables ----

  /** The last feature with each id. */
  function FeatureMap(features: seq<Feature>): map<Id, Feature> {
    if features == [] then map[]
    else
      var last := features[|features| - 1];
      FeatureMap(features[..|features| - 1])[last.id := last]
  }

  function DeclarationMap(declarations: seq<Declaration>): map<Id, Declaration> {
    if declarations == [] then map[]
    else
      var last := declarations[|declarations| - 1];
      DeclarationMap(declarations[..|declarations| - 1])[last.anchor := last]
  }

  function Implementations(relations: seq<ProtocolRelation>): set<(Id, string)> {
    set r | r in relations && r.resolution.Some? :: (r.anchor, r.resolution.value)
  }

  datatype Tables = Tables(
    features: map<Id, Feature>,
    declarations: map<Id, Declaration>,
    implementations: set<(Id, string)>,
    edges: seq<Edge>)

  function TablesOf(doc: Input): Tables {
    Tables(FeatureMap(doc.features), DeclarationMap(doc.declarations), Implementations(doc.relations), doc.edges)
  }

  // ---- what is configured, and how it fares ----

  /** The protocol an owner stands for: the first of its anchors that declares a trait. */
  function OwnerProtocol(tables: Tables, anchors: seq<Id>): Option<string> {
    if anchors == [] then None
    else if anchors[0] in tables.declarations && tables.declarations[anchors[0]].role == "trait" then
      Some(tables.declarations[anchors[0]].modulePath)
    else OwnerProtocol(tables, anchors[1..])
  }

  /** One declared type of a member that is to fill its owner's protocol role. */
  datatype Case = Case(member: Id, owner: Id, protocol: string, anchor: Id, declaration: Declaration)

  datatype Verdict = Satisfied | Policy | Gap

  /** Implementing or delegating satisfies a role; without any dependency on the owner it is a matter of policy. */
  ghost function VerdictOf(tables: Tables, c: Case): Verdict {
    if (c.anchor, c.protocol) in tables.implementations || Reaches(tables.edges, DELEGATION_RELS, c.member, c.owner) then
      Satisfied
    else if !Reaches(tables.edges, PROTOCOL_DEPENDENCY_RELS, c.member, c.owner) then Policy
    else Gap
  }

  predicate IsType(tables: Tables, anchor: Id) {
    anchor in tables.declarations && tables.declarations[anchor].role in {"struct", "enum"}
  }

  function MemberCases(tables: Tables, member: Id, owner: Id, protocol: string, anchors: seq<Id>): seq<Case> {
    if anchors == [] then []
    else
      var last := anchors[|anchors| - 1];
      MemberCases(tables, member, owner, protocol, anchors[..|anchors| - 1])
      + if IsType(tables, last) then [Case(member, owner, protocol, last, tables.declarations[last])] else []
  }

  function EdgeCases(tables: Tables, role: Edge): seq<Case> {
    if role.rel == PROTOCOL_ROLE_REL && role.from in tables.features && role.to in tables.features then
      var member, owner := tables.features[role.from], tables.features[role.to];
      match OwnerProtocol(tables, owner.anchors)
      case Some(protocol) => MemberCases(tables, member.id, owner.id, protocol, member.anchors)
      case None => []
    else []
  }

  /** Every configured case, in the order of the edges and of each member's anchors. */
  function Cases(tables: Tables, edges: seq<Edge>): seq<Case> {
    if edges == [] then []
    else Cases(tables, edges[..|edges| - 1]) + EdgeCases(tables, edges[|edges| - 1])
  }

  function FindingOf(c: Case): Finding {
    Finding("protocol-role/" + c.protocol, c.member, c.owner, c.declaration.role, c.declaration.modulePath)
  }

  ghost function CountOf(tables: Tables, cases: seq<Case>, verdict: Verdict): nat {
    if cases == [] then 0
    else
      CountOf(tables, cases[..|cases| - 1], verdict)
      + if VerdictOf(tables, cases[|cases| - 1]) == verdict then 1 else 0
  }

  ghost function GapFindings(tables: Tables, cases: seq<Case>): seq<Finding> {
    if cases == [] then []
    else
      var last := cases[|cases| - 1];
      GapFindings(tables, cases[..|cases| - 1]) + if VerdictOf(tables, last) == Gap then [FindingOf(last)] else []
  }

  /** The counters and findings are those of the cases looked at so far. */
  ghost predicate Accounts(tables: Tables, cases: seq<Case>, findings: seq<Finding>, c: Classification) {
    && c.configuredMembers == |cases|
    && c.satisfiedMembers == CountOf(tables, cases, Satisfied)
    && c.policyMembers == CountOf(tables, cases, Policy)
    && c.gapMembers == CountOf(tables, cases, Gap)
    && c.policyCauses == (if c.policyMembers == 0 then map[] else map[NO_OWNER_DEPENDENCY := c.policyMembers])
    && findings == GapFindings(tables, cases)
  }

  /** Of several features with one id the table holds the last. */
  lemma {:induction false} LastFeatureCounts(features: seq<Feature>, i: nat)
    requires i < |features| && forall j :: i < j < |features| ==> features[j].id != features[i].id
    ensures features[i].id in FeatureMap(features) && FeatureMap(features)[features[i].id] == features[i]
  {
    var n := |features| - 1;
    if i < n {
      assert features[..n][i] == features[i];
      LastFeatureCounts(features[..n], i);
    }
  }

  predicate DeclaresTrait(tables: Tables, anchor: Id) {
    anchor in tables.declarations && tables.declarations[anchor].role == "trait"
  }

  /** An owner's protocol is that of its first anchor that declares a trait. */
  lemma {:induction false} OwnerProtocolIsFirst(tables: Tables, anchors: seq<Id>, i: nat)
    requires i < |anchors| && DeclaresTrait(tables, anchors[i])
    requires forall j :: 0 <= j < i ==> !DeclaresTrait(tables, anchors[j])
    ensures OwnerProtocol(tables, anchors) == Some(tables.declarations[anchors[i]].modulePath)
  {
    if i > 0 {
      assert !DeclaresTrait(tables, anchors[0]);
      OwnerProtocolIsFirst(tables, anchors[1..], i - 1);
    }
  }

  lemma {:induction false} NoTraitNoProtocol(tables: Tables, anchors: seq<Id>)
    ensures OwnerProtocol(tables, anchors) == None <==> forall j :: 0 <= j < |anchors| ==> !DeclaresTrait(tables, anchors[j])
  {
    if anchors != [] {
      NoTraitNoProtocol(tables, anchors[1..]);
      assert forall j :: 1 <= j < |anchors| ==> anchors[j] == anchors[1..][j - 1];
    }
  }

  // ---- the walk ----

  method Judge(tables: Tables, c: Case) returns (verdict: Verdict)
    ensures verdict == VerdictOf(tables, c)
  {
    hide Reaches;
    if (c.anchor, c.protocol) in tables.implementations {
      return Satisfied;
    }
    var delegates := HasEdgePath(tables.edges, c.member, c.owner, DELEGATION_RELS);
    if delegates {
      return Satisfied;
    }
    var depends := HasEdgePath(tables.edges, c.member, c.owner, PROTOCOL_DEPENDENCY_RELS);
    verdict := if depends then Gap else Policy;
  }

  method Classify(tables: Tables, configured: Case, ghost cases: seq<Case>, findings: seq<Finding>, c: Classification)
    returns (grown: seq<Finding>, counted: Classification)
    requires Accounts(tables, cases, findings, c)
    ensures Accounts(tables, cases + [configured], grown, counted)
  {
    hide VerdictOf, CountOf, GapFindings, FindingOf;
    grown, counted := findings, c.(configuredMembers := c.configuredMembers + 1);
    CountMore(tables, cases, configured);
    var verdict := Judge(tables, configured);
    match verdict {
      case Satisfied =>
        counted := counted.(satisfiedMembers := c.satisfiedMembers + 1);
      case Policy =>
        var cause := if NO_OWNER_DEPENDENCY in c.policyCauses then c.policyCauses[NO_OWNER_DEPENDENCY] else 0;
        counted := counted.(policyMembers := c.policyMembers + 1,
        policyCauses := c.policyCauses[NO_OWNER_DEPENDENCY := cause + 1]);
      case Gap =>
        counted := counted.(gapMembers := c.gapMembers + 1);
        grown := findings + [FindingOf(configured)];
    }
  }

  lemma CountMore(tables: Tables, cases: seq<Case>, c: Case)
    ensures forall v :: CountOf(tables, cases + [c], v) == CountOf(tables, cases, v) + if VerdictOf(tables, c) == v then 1 else 0
    ensures GapFindings(tables, cases + [c]) ==
            GapFindings(tables, cases) + if VerdictOf(tables, c) == Gap then [FindingOf(c)] else []
  {
    assert (cases + [c])[..|cases|] == cases;
  }

  method ClassifyMember(tables: Tables, member: Feature, owner: Feature, protocol: string, ghost cases: seq<Case>,
                        findings: seq<Finding>, c: Classification)
    returns (grown: seq<Finding>, counted: Classification)
    requires Accounts(tables, cases, findings, c)
    ensures Accounts(tables, cases + MemberCases(tables, member.id, owner.id, protocol, member.anchors), grown, counted)
  {
    hide Accounts;
    grown, counted := findings, c;
    ghost var done := cases;
    for i := 0 to |member.anchors|
      invariant done == cases + MemberCases(tables, member.id, owner.id, protocol, member.anchors[..i])
      invariant Accounts(tables, done, grown, counted)
    {
      var anchor := member.anchors[i];
      assert member.anchors[..i + 1][..i] == member.anchors[..i];
      if IsType(tables, anchor) {
        var configured := Case(member.id, owner.id, protocol, anchor, tables.declarations[anchor]);
        grown, counted := Classify(tables, configured, done, grown, counted);
        done := done + [configured];
      }
    }
    assert member.anchors[..|member.anchors|] == member.anchors;
  }

  method ClassifyEdge(tables: Tables, role: Edge, ghost cases: seq<Case>, findings: seq<Finding>, c: Classification)
    returns (grown: seq<Finding>, counted: Classification)
    requires Accounts(tables, cases, findings, c)
    ensures Accounts(tables, cases + EdgeCases(tables, role), grown, counted)
  {
    hide Accounts, MemberCases, OwnerProtocol;
    grown, counted := findings, c;
    assert cases + [] == cases;
    if role.rel == PROTOCOL_ROLE_REL && role.from in tables.features && role.to in tables.features {
      var member, owner := tables.features[role.from], tables.features[role.to];
      var protocol := OwnerProtocol(tables, owner.anchors);
      if protocol.Some? {
        grown, counted := ClassifyMember(tables, member, owner, protocol.value, cases, findings, c);
      }
    }
  }

  lemma CasesMore(tables: Tables, edges: seq<Edge>, i: nat, j: nat)
    requires i < |edges| && j == i + 1
    ensures Cases(tables, edges[..j]) == Cases(tables, edges[..i]) + EdgeCases(tables, edges[i])
  {
    hide EdgeCases;
    assert edges[..j][..i] == edges[..i];
  }

  lemma NoCases(tables: Tables, edges: seq<Edge>)
    ensures Cases(tables, edges[..0]) == [] && Accounts(tables, [], [], Classification(0, 0, 0, 0, map[]))
  {
  }

  method ProtocolRoleFindings(doc: Input) returns (findings: seq<Finding>, c: Classification)
    ensures Accounts(TablesOf(doc), Cases(TablesOf(doc), doc.edges), findings, c)
  {
    hide TablesOf, Accounts, Cases, EdgeCases;
    var tables := TablesOf(doc);
    findings, c := [], Classification(0, 0, 0, 0, map[]);
    NoCases(tables, doc.edges);
    for i := 0 to |doc.edges|
      invariant Accounts(tables, Cases(tables, doc.edges[..i]), findings, c)
    {
      CasesMore(tables, doc.edges, i, i + 1);
      findings, c := ClassifyEdge(tables, doc.edges[i], Cases(tables, doc.edges[..i]), findings, c);
    }
    assert doc.edges[..|doc.edges|] == doc.edges;
  }

  // ---- what the counters promise ----

  /** Every configured member is satisfied, a gap or a matter of policy, and every gap has one finding. */
  lemma {:induction false} CasesAddUp(tables: Tables, cases: seq<Case>)
    ensures |cases| ==
            CountOf(tables, cases, Satisfied) + CountOf(tables, cases, Gap) + CountOf(tables, cases, Policy)
    ensures |GapFindings(tables, cases)| == CountOf(tables, cases, Gap)
  {
    if cases != [] {
      CasesAddUp(tables, cases[..|cases| - 1]);
    }
  }

  lemma ClassificationAddsUp(tables: Tables, cases: seq<Case>, findings: seq<Finding>, c: Classification)
    requires Accounts(tables, cases, findings, c)
    ensures c.configuredMembers == c.satisfiedMembers + c.gapMembers + c.policyMembers
    ensures |findings| == c.gapMembers
  {
    CasesAddUp(tables, cases);
  }

  /** A type anchor of a member whose `protocol-role` edge leads to the owner of a protocol. */
  ghost predicate Configured(tables: Tables, edge: Edge, c: Case) {
    && edge.rel == PROTOCOL_ROLE_REL && edge.from in tables.features && edge.to in tables.features
    && var member, owner := tables.features[edge.from], tables.features[edge.to];
    && c.member == member.id && c.owner == owner.id && c.anchor in member.anchors && IsType(tables, c.anchor)
    && c.declaration == tables.declarations[c.anchor]
    && OwnerProtocol(tables, owner.anchors) == Some(c.protocol)
  }

  lemma {:induction false} MemberCasesExact(tables: Tables, member: Id, owner: Id, protocol: string, anchors: seq<Id>, c: Case)
    ensures c in MemberCases(tables, member, owner, protocol, anchors) <==>
            && c.member == member && c.owner == owner && c.protocol == protocol && c.anchor in anchors
            && IsType(tables, c.anchor) && c.declaration == tables.declarations[c.anchor]
  {
    if anchors != [] {
      MemberCasesExact(tables, member, owner, protocol, anchors[..|anchors| - 1], c);
      assert anchors == anchors[..|anchors| - 1] + [anchors[|anchors| - 1]];
    }
  }

  lemma EdgeCasesExact(tables: Tables, edge: Edge, c: Case)
    ensures c in EdgeCases(tables, edge) <==> Configured(tables, edge, c)
  {
    hide MemberCases, OwnerProtocol, IsType;
    if edge.rel == PROTOCOL_ROLE_REL && edge.from in tables.features && edge.to in tables.features {
      var member, owner := tables.features[edge.from], tables.features[edge.to];
      if OwnerProtocol(tables, owner.anchors).Some? {
        MemberCasesExact(tables, member.id, owner.id, OwnerProtocol(tables, owner.anchors).value, member.anchors, c);
      }
    }
  }

  /** A case is looked at exactly when some edge configures it. */
  lemma {:induction false} CasesExact(tables: Tables, edges: seq<Edge>, c: Case)
    ensures c in Cases(tables, edges) <==> exists e :: e in edges && Configured(tables, e, c)
  {
    hide EdgeCases, Configured;
    if edges != [] {
      var rest, last := edges[..|edges| - 1], edges[|edges| - 1];
      CasesExact(tables, rest, c);
      assert edges == rest + [last];
      EdgeCasesExact(tables, last, c);
    }
  }

  lemma {:induction false} FindingIsGap(tables: Tables, cases: seq<Case>, f: Finding)
    ensures f in GapFindings(tables, cases) <==> exists c :: c in cases && VerdictOf(tables, c) == Gap && FindingOf(c) == f
  {
    hide VerdictOf, FindingOf;
    if cases != [] {
      var rest, last := cases[..|cases| - 1], cases[|cases| - 1];
      FindingIsGap(tables, rest, f);
      assert cases == rest + [last];
    }
  }

  /** More edges and implementations never turn a satisfied member into a gap, nor a gap into a matter of policy. */
  lemma VerdictsImprove(before: Tables, after: Tables, c: Case)
    requires forall e :: e in before.edges ==> e in after.edges
    requires before.implementations <= after.implementations
    ensures VerdictOf(before, c) == Satisfied ==> VerdictOf(after, c) == Satisfied
    ensures VerdictOf(before, c) == Gap ==> VerdictOf(after, c) != Policy
  {
    MoreEdgesReach(before.edges, after.edges, DELEGATION_RELS, c.member, c.owner);
    MoreEdgesReach(before.edges, after.edges, PROTOCOL_DEPENDENCY_RELS, c.member, c.owner);
  }

  lemma MoreEdgesReach(fewer: seq<Edge>, more: seq<Edge>, rels: set<string>, a: Id, b: Id)
    requires forall e :: e in fewer ==> e in more
    ensures Reaches(fewer, rels, a, b) ==> Reaches(more, rels, a, b)
  {
    if Reaches(fewer, rels, a, b) {
      var p :| IsPath(fewer, rels, p) && p[0] == a && p[|p| - 1] == b;
      assert IsPath(more, rels, p);
    }
  }

  /** A matter of policy is neither an implementation nor a delegation, by any path. */
  lemma PolicyNeverReaches(tables: Tables, c: Case)
    requires VerdictOf(tables, c) == Policy
    ensures !Reaches(tables.edges, DELEGATION_RELS, c.member, c.owner)
    ensures !Reaches(tables.edges, OWNERSHIP_RELS, c.member, c.owner)
  {
    if Reaches(tables.edges, OWNERSHIP_RELS, c.member, c.owner) {
      ReachesMonotone(tables.edges, OWNERSHIP_RELS, PROTOCOL_DEPENDENCY_RELS, c.member, c.owner);
    }
  }
}
