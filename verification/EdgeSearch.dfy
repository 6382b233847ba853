/** Paths through the edges of a document. */
module EdgeSearch {
  import opened IndexDocs

  const OWNERSHIP_RELS: set<string> := {"reuses", "composes", "delegates-to"}

  // ---- paths ----

  /** One edge of an allowed relation. */
  ghost predicate Step(edges: seq<Edge>, rels: set<string>, a: Id, b: Id) {
    exists e :: e in edges && e.from == a && e.to == b && e.rel in rels
  }

  /** A walk of at least one step. */
  ghost predicate IsPath(edges: seq<Edge>, rels: set<string>, p: seq<Id>) {
    |p| >= 2 && forall k :: 0 <= k < |p| - 1 ==> Step(edges, rels, p[k], p[k + 1])
  }

  ghost predicate Reaches(edges: seq<Edge>, rels: set<string>, a: Id, b: Id) {
    exists p :: IsPath(edges, rels, p) && p[0] == a && p[|p| - 1] == b
  }

  lemma StepReaches(edges: seq<Edge>, rels: set<string>, a: Id, b: Id)
    requires Step(edges, rels, a, b)
    ensures Reaches(edges, rels, a, b)
  {
    assert IsPath(edges, rels, [a, b]);
  }

  lemma ReachesFurther(edges: seq<Edge>, rels: set<string>, a: Id, b: Id, c: Id)
    requires (a == b || Reaches(edges, rels, a, b)) && Step(edges, rels, b, c)
    ensures Reaches(edges, rels, a, c)
  {
    hide Step;
    if a == b {
      StepReaches(edges, rels, a, c);
    } else {
      var p :| IsPath(edges, rels, p) && p[0] == a && p[|p| - 1] == b;
      var q := p + [c];
      assert IsPath(edges, rels, q);
    }
  }

  /** A set that is closed under steps and has none to `to` lies on no path to `to`. */
  lemma {:induction false} ClosedSetHasNoPath(edges: seq<Edge>, rels: set<string>, closed: set<Id>, to: Id, p: seq<Id>)
    requires forall a, b :: a in closed && Step(edges, rels, a, b) ==> b in closed && b != to
    requires IsPath(edges, rels, p) && p[0] in closed
    ensures p[|p| - 1] != to
    decreases |p|
  {
    hide Step;
    assert Step(edges, rels, p[0], p[1]);
    if |p| > 2 {
      assert IsPath(edges, rels, p[1..]);
      ClosedSetHasNoPath(edges, rels, closed, to, p[1..]);
    }
  }

  /** More relations, more paths. */
  lemma ReachesMonotone(edges: seq<Edge>, fewer: set<string>, more: set<string>, a: Id, b: Id)
    requires fewer <= more && Reaches(edges, fewer, a, b)
    ensures Reaches(edges, more, a, b)
  {
    var p :| IsPath(edges, fewer, p) && p[0] == a && p[|p| - 1] == b;
    assert IsPath(edges, more, p);
  }

  // ---- the worklist ----

  ghost function Nodes(edges: seq<Edge>, from: Id): set<Id> {
    {from} + set e | e in edges :: e.to
  }

  /** What the worklist keeps: what is found is reached, and what is done has its successors found. */
  ghost predicate Searching(edges: seq<Edge>, rels: set<string>, from: Id, to: Id, pending: seq<Id>, visited: set<Id>) {
    && (from in pending || from in visited)
    && visited <= Nodes(edges, from)
    && (forall x :: x in pending ==> x in Nodes(edges, from) && (x == from || Reaches(edges, rels, from, x)))
    && (forall a, b :: a in visited && Step(edges, rels, a, b) ==> b != to && (b in visited || b in pending))
  }

  /** The stack after the edges out of `node`, unless one of them leads to `to`. */
  ghost predicate Expanded(edges: seq<Edge>, rels: set<string>, node: Id, to: Id, before: seq<Id>, after: seq<Id>) {
    && (forall x :: x in before ==> x in after)
    && (forall x :: x in after ==> x in before || Step(edges, rels, node, x))
    && (forall x :: Step(edges, rels, node, x) ==> x in after && x != to)
  }

  method Expand(edges: seq<Edge>, rels: set<string>, node: Id, to: Id, before: seq<Id>)
    returns (found: bool, pending: seq<Id>)
    ensures found ==> Step(edges, rels, node, to)
    ensures !found ==> Expanded(edges, rels, node, to, before, pending)
  {
    found, pending := false, before;
    for i := 0 to |edges|
      invariant forall x :: x in before ==> x in pending
      invariant forall x :: x in pending ==> x in before || Step(edges, rels, node, x)
      invariant forall j :: 0 <= j < i && edges[j].from == node && edges[j].rel in rels ==>
                              edges[j].to in pending && edges[j].to != to
    {
      var edge := edges[i];
      if edge.from == node && edge.rel in rels {
        if edge.to == to {
          return true, pending;
        }
        pending := pending + [edge.to];
      }
    }
  }

  lemma StartSearch(edges: seq<Edge>, rels: set<string>, from: Id, to: Id)
    ensures Searching(edges, rels, from, to, [from], {})
  {
  }

  lemma SkipVisited(edges: seq<Edge>, rels: set<string>, from: Id, to: Id, pending: seq<Id>, visited: set<Id>)
    requires pending != [] && pending[|pending| - 1] in visited && Searching(edges, rels, from, to, pending, visited)
    ensures Searching(edges, rels, from, to, pending[..|pending| - 1], visited)
  {
    hide Step, Reaches, Nodes;
    var n := |pending| - 1;
    forall x | x in pending && x != pending[n] ensures x in pending[..n] {
      var k :| 0 <= k < |pending| && pending[k] == x;
      assert pending[..n][k] == x;
    }
  }

  lemma VisitNode(edges: seq<Edge>, rels: set<string>, from: Id, to: Id, pending: seq<Id>, visited: set<Id>,
                  after: seq<Id>)
    requires pending != [] && pending[|pending| - 1] !in visited && Searching(edges, rels, from, to, pending, visited)
    requires Expanded(edges, rels, pending[|pending| - 1], to, pending[..|pending| - 1], after)
    ensures Searching(edges, rels, from, to, after, visited + {pending[|pending| - 1]})
    ensures visited < visited + {pending[|pending| - 1]} <= Nodes(edges, from)
  {
    var n := |pending| - 1;
    var node := pending[n];
    forall x | x in after ensures x in Nodes(edges, from) && (x == from || Reaches(edges, rels, from, x)) {
      if x !in pending[..n] {
        ReachesFurther(edges, rels, from, node, x);
      }
    }
    hide Step, Reaches, Nodes;
    forall x | x in pending && x != node ensures x in after {
      var k :| 0 <= k < |pending| && pending[k] == x;
      assert pending[..n][k] == x;
    }
  }

  lemma SearchDone(edges: seq<Edge>, rels: set<string>, from: Id, to: Id, visited: set<Id>)
    requires Searching(edges, rels, from, to, [], visited)
    ensures !Reaches(edges, rels, from, to)
  {
    forall p | IsPath(edges, rels, p) && p[0] == from ensures p[|p| - 1] != to {
      ClosedSetHasNoPath(edges, rels, visited, to, p);
    }
  }

  /** Whether some path of allowed edges leads from `from` to `to`; ends on cycles too. */
  method HasEdgePath(edges: seq<Edge>, from: Id, to: Id, relations: set<string>) returns (found: bool)
    ensures found <==> Reaches(edges, relations, from, to)
  {
    hide Searching, Expanded, Reaches, Nodes;
    var pending: seq<Id>, visited: set<Id> := [from], {};
    StartSearch(edges, relations, from, to);
    while pending != []
      invariant Searching(edges, relations, from, to, pending, visited)
      decreases Nodes(edges, from) - visited, |pending|
    {
      var node := pending[|pending| - 1];
      if node in visited {
        SkipVisited(edges, relations, from, to, pending, visited);
        pending := pending[..|pending| - 1];
      } else {
        var hit, after := Expand(edges, relations, node, to, pending[..|pending| - 1]);
        if hit {
          FoundIsReached(edges, relations, from, to, pending, visited);
          return true;
        }
        VisitNode(edges, relations, from, to, pending, visited, after);
        pending, visited := after, visited + {node};
      }
    }
    SearchDone(edges, relations, from, to, visited);
    return false;
  }

  lemma FoundIsReached(edges: seq<Edge>, rels: set<string>, from: Id, to: Id, pending: seq<Id>, visited: set<Id>)
    requires pending != [] && Searching(edges, rels, from, to, pending, visited)
    requires Step(edges, rels, pending[|pending| - 1], to)
    ensures Reaches(edges, rels, from, to)
  {
    ReachesFurther(edges, rels, from, pending[|pending| - 1], to);
  }

  /** The ownership check's own copy of the search, for its own relations. */
  method HasExplicitOwnerRelation(edges: seq<Edge>, from: Id, owner: Id) returns (found: bool)
    ensures found <==> Reaches(edges, OWNERSHIP_RELS, from, owner)
  {
    hide Searching, Expanded, Reaches, Nodes;
    var pending: seq<Id>, seen: set<Id> := [from], {};
    StartSearch(edges, OWNERSHIP_RELS, from, owner);
    while pending != []
      invariant Searching(edges, OWNERSHIP_RELS, from, owner, pending, seen)
      decreases Nodes(edges, from) - seen, |pending|
    {
      var current := pending[|pending| - 1];
      if current in seen {
        SkipVisited(edges, OWNERSHIP_RELS, from, owner, pending, seen);
        pending := pending[..|pending| - 1];
      } else {
        var hit, after := Expand(edges, OWNERSHIP_RELS, current, owner, pending[..|pending| - 1]);
        if hit {
          FoundIsReached(edges, OWNERSHIP_RELS, from, owner, pending, seen);
          return true;
        }
        VisitNode(edges, OWNERSHIP_RELS, from, owner, pending, seen, after);
        pending, seen := after, seen + {current};
      }
    }
    SearchDone(edges, OWNERSHIP_RELS, from, owner, seen);
    return false;
  }
}
