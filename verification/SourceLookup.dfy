/** Finding an identifier in a source text, and the package that holds a path. */
module SourceLookup {
  import opened Text
  import opened Wrappers

  // ---- identifiers ----

  /** `needle` stands in `s` at `p`. */
  predicate OccursAt(s: string, needle: string, p: nat) {
    p + |needle| <= |s| && s[p..p + |needle|] == needle
  }

  /** No identifier character stands right before or right after the occurrence at `p`. */
  predicate Isolated(s: string, needle: string, p: nat)
    requires p + |needle| <= |s|
  {
    && (p > 0 ==> !IsIdentifierChar(s[p - 1]))
    && (p + |needle| < |s| ==> !IsIdentifierChar(s[p + |needle|]))
  }

  /** The promise: some occurrence, overlapping others or not, is isolated. */
  ghost predicate HasIsolated(s: string, needle: string) {
    exists p :: OccursAt(s, needle, p) && Isolated(s, needle, p)
  }

  /** The first occurrence at or after `from`, or the length plus one. */
  function FindFrom(s: string, needle: string, from: nat): (p: nat)
    requires from <= |s| + 1
    ensures from <= p <= |s| + 1 && (p <= |s| ==> OccursAt(s, needle, p))
    ensures forall q :: from <= q < p ==> !OccursAt(s, needle, q)
    decreases |s| + 1 - from
  {
    if from > |s| || OccursAt(s, needle, from) then from else FindFrom(s, needle, from + 1)
  }

  /** Where the search goes on after a match; an empty needle matches everywhere. */
  function After(needle: string, p: nat): nat {
    if needle == "" then p + 1 else p + |needle|
  }

  /** Whether one of the matches that do not overlap, from `from` on, is isolated. */
  predicate FoundFrom(s: string, needle: string, from: nat)
    requires from <= |s| + 1
    decreases |s| + 1 - from
  {
    var p := FindFrom(s, needle, from);
    p <= |s| && (Isolated(s, needle, p) || FoundFrom(s, needle, After(needle, p)))
  }

  predicate ContainsRustIdentifier(s: string, needle: string) {
    FoundFrom(s, needle, 0)
  }

  /** The needle overlaps itself, shifted by `d`, right after a character that is no identifier character. */
  predicate BreaksAt(needle: string, d: nat) {
    0 < d < |needle| && needle[d..] == needle[..|needle| - d] && !IsIdentifierChar(needle[d - 1])
  }

  /** What is found is there. */
  lemma {:induction false} FoundIsThere(s: string, needle: string, from: nat)
    requires from <= |s| + 1 && FoundFrom(s, needle, from)
    ensures HasIsolated(s, needle)
    decreases |s| + 1 - from
  {
    var p := FindFrom(s, needle, from);
    if !Isolated(s, needle, p) {
      FoundIsThere(s, needle, After(needle, p));
    }
  }

  /** An occurrence that overlaps an earlier one makes the needle overlap itself. */
  lemma OverlapShifts(s: string, needle: string, p: nat, q: nat)
    requires OccursAt(s, needle, p) && OccursAt(s, needle, q) && p < q < p + |needle|
    ensures var d := q - p; needle[d..] == needle[..|needle| - d] && s[q - 1] == needle[d - 1]
  {
    var d := q - p;
    var atP, atQ := s[p..p + |needle|], s[q..q + |needle|];
    assert atP[d..] == s[q..p + |needle|] == atQ[..|needle| - d];
    assert atP[d - 1] == s[q - 1];
  }

  /** Nothing isolated is skipped over. */
  lemma {:induction false} NothingSkipped(s: string, needle: string, from: nat, q: nat)
    requires from <= q && OccursAt(s, needle, q) && Isolated(s, needle, q)
    requires forall d: nat :: !BreaksAt(needle, d)
    ensures FoundFrom(s, needle, from)
    decreases q - from
  {
    var p := FindFrom(s, needle, from);
    if p < q {
      assert !BreaksAt(needle, q - p);
      if q < After(needle, p) {
        OverlapShifts(s, needle, p, q);
      } else {
        NothingSkipped(s, needle, After(needle, p), q);
      }
    }
  }

  /** An identifier character that the needle does not start with. */
  function OtherLetter(needle: string): (c: char)
    requires needle != ""
    ensures IsIdentifierChar(c) && c != needle[0]
  {
    if needle[0] == 'a' then 'b' else 'a'
  }

  /** A text in which the only isolated occurrence overlaps one that is not. */
  function Witness(needle: string, d: nat): string
    requires BreaksAt(needle, d)
  {
    [OtherLetter(needle)] + needle[..d] + needle
  }

  lemma WitnessMatches(needle: string, d: nat)
    requires BreaksAt(needle, d)
    ensures var s, n := Witness(needle, d), |needle|;
            && !OccursAt(s, needle, 0) && OccursAt(s, needle, 1) && !Isolated(s, needle, 1)
            && OccursAt(s, needle, 1 + d) && Isolated(s, needle, 1 + d)
  {
    var s, n := Witness(needle, d), |needle|;
    assert needle == needle[..d] + needle[d..];
    assert s[1..1 + n] == needle[..d] + needle[..n - d];
    assert s[1 + d..1 + d + n] == needle;
    assert s[0..n][0] == OtherLetter(needle);
  }

  /** The search takes the occurrence at 1 and then finds no room for another. */
  lemma WitnessIsMissed(needle: string, d: nat)
    requires BreaksAt(needle, d)
    ensures HasIsolated(Witness(needle, d), needle) && !ContainsRustIdentifier(Witness(needle, d), needle)
  {
    WitnessMatches(needle, d);
    var s, n := Witness(needle, d), |needle|;
    assert |s| == 1 + d + n;
    hide OccursAt, Isolated, Witness, BreaksAt;
    assert FindFrom(s, needle, 0) == 1;
    NoRoom(s, needle, 1 + n);
  }

  lemma NoRoom(s: string, needle: string, from: nat)
    requires from <= |s| + 1 && |s| < from + |needle|
    ensures !FoundFrom(s, needle, from)
  {
    assert forall q :: from <= q <= |s| ==> !OccursAt(s, needle, q);
  }

  /** Matches that do not overlap find every isolated occurrence, in every text, exactly for needles that do not break. */
  lemma SearchComplete(needle: string)
    ensures (forall s :: ContainsRustIdentifier(s, needle) <==> HasIsolated(s, needle)) <==>
            forall d: nat :: !BreaksAt(needle, d)
  {
    if forall d: nat :: !BreaksAt(needle, d) {
      forall s ensures ContainsRustIdentifier(s, needle) <==> HasIsolated(s, needle) {
        if ContainsRustIdentifier(s, needle) {
          FoundIsThere(s, needle, 0);
        }
        if q :| OccursAt(s, needle, q) && Isolated(s, needle, q) {
          NothingSkipped(s, needle, 0, q);
        }
      }
    }
    if d: nat :| BreaksAt(needle, d) {
      WitnessIsMissed(needle, d);
    }
  }

  /** For an identifier nothing is lost. */
  lemma IdentifiersAreFound(s: string, needle: string)
    requires forall k :: 0 <= k < |needle| ==> IsIdentifierChar(needle[k])
    ensures ContainsRustIdentifier(s, needle) <==> HasIsolated(s, needle)
  {
    forall d: nat ensures !BreaksAt(needle, d) {
      if 0 < d < |needle| { assert IsIdentifierChar(needle[d - 1]); }
    }
    SearchComplete(needle);
  }

  // ---- packages ----

  datatype Package = Package(name: string, root: string)

  datatype LookupError = NoPackage | SeveralPackages(names: seq<string>)

  predicate PackageContainsPath(root: string, path: string) {
    root == "" || path == root || root + "/" <= path
  }

  /** Package `i` contains the path, and none that does has a longer root. */
  ghost predicate IsLongest(packages: seq<Package>, path: string, i: nat) {
    && i < |packages| && PackageContainsPath(packages[i].root, path)
    && forall j :: 0 <= j < |packages| && PackageContainsPath(packages[j].root, path) ==>
                     |packages[j].root| <= |packages[i].root|
  }

  /** The places of the packages with the longest root, among the first `n`. */
  ghost predicate AreLongest(packages: seq<Package>, path: string, n: nat, best: seq<nat>)
    requires n <= |packages|
  {
    && (forall k :: 0 <= k < |best| ==> best[k] < n)
    && (forall i :: 0 <= i < n ==> (i in best <==> IsLongest(packages[..n], path, i)))
    && (forall j, k :: 0 <= j < k < |best| ==> best[j] < best[k])
  }

  function Names(packages: seq<Package>, best: seq<nat>): seq<string>
    requires forall k :: 0 <= k < |best| ==> best[k] < |packages|
  {
    seq(|best|, k requires 0 <= k < |best| => packages[best[k]].name)
  }

  /** How the running best compares with the packages seen so far. */
  ghost predicate Running(packages: seq<Package>, path: string, n: nat, best: seq<nat>, bestLen: Option<nat>)
    requires n <= |packages|
  {
    && (best == [] <==> bestLen.None?)
    && (forall k :: 0 <= k < |best| ==> best[k] < n)
    && (forall j, k :: 0 <= j < k < |best| ==> best[j] < best[k])
    && (forall i :: 0 <= i < n && PackageContainsPath(packages[i].root, path) ==>
          bestLen.Some? && |packages[i].root| <= bestLen.value && (i in best <==> |packages[i].root| == bestLen.value))
    && (forall k :: 0 <= k < |best| ==> PackageContainsPath(packages[best[k]].root, path))
  }

  lemma RunningIsLongest(packages: seq<Package>, path: string, best: seq<nat>, bestLen: Option<nat>)
    requires Running(packages, path, |packages|, best, bestLen)
    ensures AreLongest(packages, path, |packages|, best)
    ensures forall k :: 0 <= k < |best| ==> best[k] < |packages|
  {
    hide PackageContainsPath;
    var n := |packages|;
    assert packages[..n] == packages;
    if best != [] {
      assert best[0] in best && |packages[best[0]].root| == bestLen.value;
    }
  }

  method Consider(packages: seq<Package>, path: string, i: nat, found: seq<nat>, foundLen: Option<nat>)
    returns (best: seq<nat>, bestLen: Option<nat>)
    requires i < |packages| && Running(packages, path, i, found, foundLen)
    ensures Running(packages, path, i + 1, best, bestLen)
  {
    hide PackageContainsPath;
    best, bestLen := found, foundLen;
    if PackageContainsPath(packages[i].root, path) {
      var len := |packages[i].root|;
      if bestLen.Some? && bestLen.value > len {
      } else if bestLen.Some? && bestLen.value == len {
        best := best + [i];
      } else {
        best, bestLen := [i], Some(len);
      }
    }
  }

  lemma RunningStarts(packages: seq<Package>, path: string)
    ensures Running(packages, path, 0, [], None)
  {
  }

  function Decide(packages: seq<Package>, best: seq<nat>): Result<string, LookupError>
    requires forall k :: 0 <= k < |best| ==> best[k] < |packages|
  {
    if |best| == 1 then Success(packages[best[0]].name)
    else if best == [] then Failure(NoPackage)
    else Failure(SeveralPackages(Names(packages, best)))
  }

  /** The packages with the longest root that contains the path decide: one is the answer, none or several are errors. */
  ghost predicate IsAnswer(packages: seq<Package>, path: string, r: Result<string, LookupError>) {
    exists best :: AreLongest(packages, path, |packages|, best) && r == Decide(packages, best)
  }

  method PackageFor(packages: seq<Package>, path: string) returns (r: Result<string, LookupError>)
    ensures IsAnswer(packages, path, r)
  {
    hide Running, AreLongest;
    var found: seq<nat>, bestLen: Option<nat> := [], None;
    RunningStarts(packages, path);
    for i := 0 to |packages|
      invariant Running(packages, path, i, found, bestLen)
    {
      found, bestLen := Consider(packages, path, i, found, bestLen);
    }
    RunningIsLongest(packages, path, found, bestLen);
    if |found| == 1 {
      r := Success(packages[found[0]].name);
    } else if found == [] {
      r := Failure(NoPackage);
    } else {
      r := Failure(SeveralPackages(Names(packages, found)));
    }
    assert r == Decide(packages, found);
  }

  /** Of two roots that contain a path the shorter starts the longer; roots of one length are the same root. */
  lemma RootsNest(a: string, b: string, path: string)
    requires PackageContainsPath(a, path) && PackageContainsPath(b, path) && |a| <= |b|
    ensures a <= b && (|a| == |b| ==> a == b) && PackageContainsPath(a, b)
  {
    assert a <= path && b <= path;
    assert a == path[..|a|] && b == path[..|b|];
    if a != "" && |a| < |b| {
      assert path[|a|] == (a + "/")[|a|] == '/';
      assert a + "/" == path[..|a| + 1];
      assert path[..|a| + 1] == b[..|a| + 1];
    }
  }

  /** So a tie means that one root is listed twice. */
  lemma TieIsRepeatedRoot(packages: seq<Package>, path: string, best: seq<nat>, j: nat, k: nat)
    requires AreLongest(packages, path, |packages|, best) && j < k < |best|
    ensures best[j] != best[k] && packages[best[j]].root == packages[best[k]].root
  {
    hide PackageContainsPath;
    assert packages[..|packages|] == packages;
    assert best[j] in best && best[k] in best;
    assert IsLongest(packages, path, best[j]) && IsLongest(packages, path, best[k]);
    RootsNest(packages[best[j]].root, packages[best[k]].root, path);
  }

  /** With distinct roots the answer is the one longest containing root's package, if any root contains the path. */
  lemma DistinctRootsDecide(packages: seq<Package>, path: string, r: Result<string, LookupError>)
    requires IsAnswer(packages, path, r)
    requires forall j, k :: 0 <= j < k < |packages| ==> packages[j].root != packages[k].root
    ensures r.Success? <==> exists i: nat :: IsLongest(packages, path, i)
    ensures r.Success? ==> exists i: nat :: IsLongest(packages, path, i) && r.value == packages[i].name
    ensures r.Failure? ==> r.error == NoPackage
  {
    hide PackageContainsPath;
    var best :| AreLongest(packages, path, |packages|, best) && r == Decide(packages, best);
    assert packages[..|packages|] == packages;
    if |best| > 1 {
      TieIsRepeatedRoot(packages, path, best, 0, 1);
      assert false;
    }
    if |best| == 1 {
      assert best[0] in best;
    }
    assert forall i: nat :: IsLongest(packages, path, i) ==> i in best;
  }

  /** Two dashes are not found in `a---`, where the last two stand alone. */
  lemma DashesAreMissed()
    ensures HasIsolated("a---", "--") && !ContainsRustIdentifier("a---", "--")
  {
    assert "--"[1..] == "--"[..1] && BreaksAt("--", 1);
    assert Witness("--", 1) == "a---";
    WitnessIsMissed("--", 1);
  }
}
