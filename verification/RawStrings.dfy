/**
 The license gate's scanner: which lines of a file's head lie outside every Rust raw string. The scan
 runs line by line, carrying the number of hashes of an open raw string.
 */
module RawStrings {
  import opened Wrappers
  import opened Text

  // ---- the reference: one scan over the whole text ----

  datatype State = Code | Comment | Raw(hashes: nat)

  function HashRun(text: string, i: nat): nat
    decreases |text| - i
  {
    if i < |text| && text[i] == '#' then 1 + HashRun(text, i + 1) else 0
  }

  predicate CommentAt(text: string, i: nat) {
    i + 1 < |text| && text[i] == '/' && text[i + 1] == '/'
  }

  /** An `r`, `br` or `cr` that does not continue an identifier. */
  predicate PrefixAt(text: string, i: nat) {
    && i < |text| && text[i] == 'r'
    && var start := if i > 0 && (text[i - 1] == 'b' || text[i - 1] == 'c') then i - 1 else i;
    !(start > 0 && IsIdentifierChar(text[start - 1]))
  }

  /** A raw-string opener: prefix, hashes, quote. */
  predicate OpensAt(text: string, i: nat) {
    PrefixAt(text, i) && i + 1 + HashRun(text, i + 1) < |text| && text[i + 1 + HashRun(text, i + 1)] == '"'
  }

  /** A quote followed by at least `hashes` hashes. */
  predicate ClosesAt(text: string, i: nat, hashes: nat) {
    i < |text| && text[i] == '"' && hashes <= HashRun(text, i + 1)
  }

  lemma HashRunFits(text: string, i: nat)
    ensures i <= |text| ==> i + HashRun(text, i) <= |text|
    decreases |text| - i
  {
  }

  /** One lexical step over the text. */
  function Next(text: string, pos: nat, state: State): (r: (nat, State))
    requires pos < |text|
    ensures pos < r.0 <= |text|
  {
    HashRunFits(text, pos + 1);
    match state
    case Raw(hashes) => if ClosesAt(text, pos, hashes) then (pos + 1 + hashes, Code) else (pos + 1, state)
    case Comment => (pos + 1, if text[pos] == '\n' then Code else Comment)
    case Code =>
      if CommentAt(text, pos) then (pos + 1, Comment)
      else if OpensAt(text, pos) then
        (pos + 2 + HashRun(text, pos + 1), Raw(HashRun(text, pos + 1)))
      else (pos + 1, Code)
  }

  /** Steps from `pos` until `limit` is reached. */
  function Scan(text: string, pos: nat, state: State, limit: nat): (r: (nat, State))
    requires pos <= |text| && limit <= |text|
    ensures r.0 <= |text|
    decreases |text| - pos
  {
    if pos >= limit then (pos, state)
    else
      var (next, after) := Next(text, pos, state);
      Scan(text, next, after, limit)
  }

  // ---- the scanner of a single line ----

  /** What is carried from one line to the next. */
  function Carried(state: State): Option<nat> {
    match state
    case Raw(hashes) => Some(hashes)
    case _ => None
  }

  function Entering(carried: Option<nat>): State {
    match carried
    case Some(hashes) => Raw(hashes)
    case None => Code
  }

  method RawStringOpenAtOrAfter(line: string, from: nat) returns (r: Option<(nat, nat)>)
    requires from <= |line| && '\n' !in line
    ensures r.Some? ==> from < r.value.1 <= |line| &&
                        Scan(line, from, Code, |line|) == Scan(line, r.value.1, Raw(r.value.0), |line|)
    ensures r.None? ==> Carried(Scan(line, from, Code, |line|).1) == None
  {
    for i := from to |line|
      invariant Scan(line, from, Code, |line|) == Scan(line, i, Code, |line|)
    {
      if line[i] == '/' && i + 1 < |line| && line[i + 1] == '/' {
        CommentRuns(line, i + 1);
        return None;
      }
      if line[i] != 'r' {
        continue;
      }
      var prefixStart := if i > 0 && (line[i - 1] == 'b' || line[i - 1] == 'c') then i - 1 else i;
      if prefixStart > 0 && IsIdentifierChar(line[prefixStart - 1]) {
        continue;
      }
      var j := i + 1;
      var hashes := 0;
      while j < |line| && line[j] == '#'
        invariant j == i + 1 + hashes <= |line|
        invariant HashRun(line, i + 1) == hashes + HashRun(line, j)
      {
        hashes := hashes + 1;
        j := j + 1;
      }
      if j < |line| && line[j] == '"' {
        return Some((hashes, j + 1));
      }
    }
    return None;
  }

  lemma {:induction false} CommentRuns(line: string, pos: nat)
    requires pos <= |line| && '\n' !in line
    ensures Carried(Scan(line, pos, Comment, |line|).1) == None
    decreases |line| - pos
  {
    if pos < |line| {
      CommentRuns(line, pos + 1);
    }
  }

  method RawStringCloseAtOrAfter(line: string, from: nat, hashes: nat) returns (r: Option<nat>)
    requires from <= |line|
    ensures r.Some? ==> from < r.value <= |line| &&
                        Scan(line, from, Raw(hashes), |line|) == Scan(line, r.value, Code, |line|)
    ensures r.None? ==> Scan(line, from, Raw(hashes), |line|).1 == Raw(hashes)
    ensures r.Some? ==> exists i :: from <= i < |line| && ClosesAt(line, i, hashes) && r.value == i + 1 + hashes
                                    && forall k :: from <= k < i ==> !ClosesAt(line, k, hashes)
    ensures r.None? ==> forall k :: from <= k < |line| ==> !ClosesAt(line, k, hashes)
  {
    for i := from to |line|
      invariant Scan(line, from, Raw(hashes), |line|) == Scan(line, i, Raw(hashes), |line|)
      invariant forall k :: from <= k < i ==> !ClosesAt(line, k, hashes)
    {
      if line[i] != '"' {
        continue;
      }
      var j := i + 1;
      var count := 0;
      while count < hashes && j < |line| && line[j] == '#'
        invariant j == i + 1 + count <= |line| && count <= hashes
        invariant HashRun(line, i + 1) == count + HashRun(line, j)
      {
        count := count + 1;
        j := j + 1;
      }
      if count == hashes {
        return Some(j);
      }
    }
    return None;
  }

  /** The state after a whole line, given the state before it: any number of raw strings may open and close. */
  method RawStringStateAfter(line: string, entering: Option<nat>) returns (r: Option<nat>)
    requires '\n' !in line
    ensures r == StateAfter(line, entering)
  {
    var state := entering;
    var pos := 0;
    while true
      invariant pos <= |line|
      invariant Carried(Scan(line, pos, Entering(state), |line|).1) == StateAfter(line, entering)
      decreases |line| - pos
    {
      match state {
        case Some(hashes) =>
          var end := RawStringCloseAtOrAfter(line, pos, hashes);
          if end.None? {
            return state;
          }
          pos, state := end.value, None;
        case None =>
          var open := RawStringOpenAtOrAfter(line, pos);
          if open.None? {
            return None;
          }
          pos, state := open.value.1, Some(open.value.0);
      }
    }
  }

  function StateAfter(line: string, entering: Option<nat>): Option<nat> {
    Carried(Scan(line, 0, Entering(entering), |line|).1)
  }

  /** The lines that do not start inside an open raw string, by carrying the state from line to line. */
  method LinesOutsideRawStrings(head: seq<string>) returns (out: seq<string>)
    requires SingleLines(head)
    ensures out == Outside(head, |head|)
  {
    out := [];
    var openHashes: Option<nat> := None;
    for i := 0 to |head|
      invariant openHashes == Carried(StartState(head, i))
      invariant out == Outside(head, i)
    {
      if openHashes.None? {
        out := out + [head[i]];
      }
      openHashes := RawStringStateAfter(head[i], openHashes);
      FoldStep(head, i);
    }
  }

  // ---- the line-by-line fold is the scan of the whole text ----

  ghost predicate SingleLines(lines: seq<string>) {
    forall i :: 0 <= i < |lines| ==> '\n' !in lines[i]
  }

  /** The lines as one text, each ended by a newline. */
  function Whole(lines: seq<string>): string {
    if lines == [] then "" else Whole(lines[..|lines| - 1]) + lines[|lines| - 1] + "\n"
  }

  /** The state of the whole-text scan where line `i` starts. */
  function StartState(lines: seq<string>, i: nat): State
    requires i <= |lines|
  {
    WholePrefix(lines, i);
    Scan(Whole(lines), 0, Code, |Whole(lines[..i])|).1
  }

  /** Line `i` starts outside every raw string of the whole text. */
  predicate StartsOutside(lines: seq<string>, i: nat)
    requires i < |lines|
  {
    !StartState(lines, i).Raw?
  }

  function Outside(lines: seq<string>, n: nat): seq<string>
    requires n <= |lines|
  {
    if n == 0 then []
    else Outside(lines, n - 1) + if StartsOutside(lines, n - 1) then [lines[n - 1]] else []
  }

  lemma {:induction false} WholePrefix(lines: seq<string>, i: nat)
    requires i <= |lines|
    ensures Whole(lines[..i]) <= Whole(lines)
    decreases |lines|
  {
    if i < |lines| {
      var init := lines[..|lines| - 1];
      WholePrefix(init, i);
      assert init[..i] == lines[..i];
    } else {
      assert lines[..i] == lines;
    }
  }

  /** `line` stands in `text` at `base`, between newlines. */
  ghost predicate Embedded(text: string, base: nat, line: string) {
    && base + |line| < |text| && text[base + |line|] == '\n' && (base == 0 || text[base - 1] == '\n')
    && '\n' !in line && forall q :: 0 <= q < |line| ==> text[base + q] == line[q]
  }

  lemma {:induction false} HashRunShift(text: string, base: nat, line: string, q: nat)
    requires Embedded(text, base, line) && q <= |line|
    ensures HashRun(text, base + q) == HashRun(line, q)
    decreases |line| - q
  {
    if q < |line| {
      HashRunShift(text, base, line, q + 1);
    }
  }

  /** No step looks past the end of its line or before its start. */
  lemma NextShift(text: string, base: nat, line: string, q: nat, state: State)
    requires Embedded(text, base, line) && q < |line|
    ensures Next(text, base + q, state) == (base + Next(line, q, state).0, Next(line, q, state).1)
  {
    HashRunShift(text, base, line, q + 1);
    HashRunFits(line, q + 1);
    assert PrefixAt(text, base + q) == PrefixAt(line, q);
  }

  /** At a newline a comment ends and everything else goes on. */
  function AtNewline(state: State): State {
    if state.Comment? then Code else state
  }

  lemma {:induction false} ScanShift(text: string, base: nat, line: string, q: nat, state: State)
    requires Embedded(text, base, line) && q <= |line|
    ensures Scan(text, base + q, state, base + |line| + 1) ==
            (base + |line| + 1, AtNewline(Scan(line, q, state, |line|).1))
    decreases |line| - q
  {
    if q < |line| {
      NextShift(text, base, line, q, state);
      var (next, after) := Next(line, q, state);
      ScanShift(text, base, line, next, after);
    } else {
      assert Next(text, base + q, state) == (base + q + 1, AtNewline(state));
    }
  }

  /** A scan that lands exactly on a position can be resumed there. */
  lemma {:induction false} ScanResumes(text: string, pos: nat, state: State, mid: nat, limit: nat)
    requires pos <= |text| && mid <= limit <= |text| && Scan(text, pos, state, mid).0 == mid
    ensures Scan(text, pos, state, limit) == Scan(text, mid, Scan(text, pos, state, mid).1, limit)
    decreases |text| - pos
  {
    if pos < mid {
      var (next, after) := Next(text, pos, state);
      ScanResumes(text, next, after, mid, limit);
    }
  }

  lemma LineEmbedded(lines: seq<string>, i: nat, j: nat)
    requires i < |lines| && SingleLines(lines) && j == i + 1
    ensures Whole(lines[..j]) == Whole(lines[..i]) + lines[i] + "\n"
    ensures Embedded(Whole(lines), |Whole(lines[..i])|, lines[i])
  {
    assert lines[..j][..i] == lines[..i];
    WholePrefix(lines, j);
    var text, part := Whole(lines), Whole(lines[..j]);
    assert part == text[..|part|];
    if i > 0 {
      assert lines[..i][..i - 1] == lines[..i - 1];
    }
  }

  lemma OneMoreLine(text: string, base: nat, line: string, end: nat)
    requires Embedded(text, base, line) && end == base + |line| + 1 && Scan(text, 0, Code, base).0 == base
    ensures Scan(text, 0, Code, end) == (end, AtNewline(Scan(line, 0, Scan(text, 0, Code, base).1, |line|).1))
  {
    ScanShift(text, base, line, 0, Scan(text, 0, Code, base).1);
    ScanResumes(text, 0, Code, base, end);
  }

  /** Where a line starts the whole-text scan arrives exactly, and never inside a comment. */
  lemma {:induction false} LandsOnLines(lines: seq<string>, i: nat)
    requires i <= |lines| && SingleLines(lines)
    ensures |Whole(lines[..i])| <= |Whole(lines)|
    ensures Scan(Whole(lines), 0, Code, |Whole(lines[..i])|).0 == |Whole(lines[..i])|
    ensures !StartState(lines, i).Comment?
    ensures i > 0 ==> StartState(lines, i) == AtNewline(Scan(lines[i - 1], 0, StartState(lines, i - 1), |lines[i - 1]|).1)
  {
    WholePrefix(lines, i);
    if i == 0 {
      assert Whole(lines[..0]) == "";
    } else {
      hide Scan, Whole, SingleLines, Embedded;
      LandsOnLines(lines, i - 1);
      LineEmbedded(lines, i - 1, i);
      OneMoreLine(Whole(lines), |Whole(lines[..i - 1])|, lines[i - 1], |Whole(lines[..i])|);
    }
  }

  /** Carrying the state from line to line is scanning the whole text. */
  lemma FoldStep(lines: seq<string>, i: nat)
    requires i < |lines| && SingleLines(lines)
    ensures Carried(StartState(lines, i + 1)) == StateAfter(lines[i], Carried(StartState(lines, i)))
  {
    LandsOnLines(lines, i);
    LandsOnLines(lines, i + 1);
    hide Scan;
  }

  // ---- a raw string literal is left exactly at its own delimiter ----

  function Hashes(n: nat): string {
    seq(n, _ => '#')
  }

  lemma {:induction false} HashesRun(text: string, i: nat, n: nat)
    requires i + n <= |text| && forall k :: i <= k < i + n ==> text[k] == '#'
    ensures HashRun(text, i) >= n
    decreases n
  {
    if n > 0 { HashesRun(text, i + 1, n - 1); }
  }

  lemma {:induction false} HashRunCounts(text: string, i: nat, k: nat)
    requires k < HashRun(text, i)
    ensures i + k < |text| && text[i + k] == '#'
    decreases k
  {
    if k > 0 { HashRunCounts(text, i + 1, k - 1); }
  }

  /**
   Inside a raw string of `n` hashes, content without a quote followed by `n` hashes is passed over, and
   the delimiter after it is where the string ends.
   */
  lemma LiteralCloses(content: string, n: nat, rest: string)
    requires forall k :: 0 <= k < |content| ==> !ClosesAt(content, k, n)
    ensures var text := content + "\"" + Hashes(n) + rest;
            && ClosesAt(text, |content|, n)
            && forall k :: 0 <= k < |content| ==> !ClosesAt(text, k, n)
    ensures var text := content + "\"" + Hashes(n) + rest;
            Scan(text, 0, Raw(n), |content| + 1 + n) == (|content| + 1 + n, Code)
  {
    var text := content + "\"" + Hashes(n) + rest;
    HashesRun(text, |content| + 1, n);
    forall k | 0 <= k < |content| ensures !ClosesAt(text, k, n) {
      if ClosesAt(text, k, n) {
        ClosesWithin(content, text, k, n);
      }
    }
    PassesOver(text, 0, |content|, n);
  }

  lemma ClosesWithin(content: string, text: string, k: nat, n: nat)
    requires |content| < |text| && text[..|content|] == content && text[|content|] == '"'
    requires k < |content| && ClosesAt(text, k, n)
    ensures ClosesAt(content, k, n)
  {
    assert text[k] == content[k];
    if |content| < k + 1 + n {
      HashRunCounts(text, k + 1, |content| - k - 1);
    }
    forall p | k + 1 <= p < k + 1 + n ensures content[p] == '#' {
      HashRunCounts(text, k + 1, p - k - 1);
      assert text[p] == content[p];
    }
    HashesRun(content, k + 1, n);
  }

  lemma {:induction false} PassesOver(text: string, pos: nat, stop: nat, n: nat)
    requires pos <= stop && stop + 1 + n <= |text| && ClosesAt(text, stop, n)
    requires forall k :: pos <= k < stop ==> !ClosesAt(text, k, n)
    ensures Scan(text, pos, Raw(n), stop + 1 + n) == (stop + 1 + n, Code)
    decreases stop - pos
  {
    if pos < stop {
      PassesOver(text, pos + 1, stop, n);
    }
  }

  // ---- classifying a file ----

  datatype Notice = Present | Generated | OtherLicense | MissingNotice

  const HEAD_LINES := 12
  const NOTICE := "SPDX-License-Identifier: MPL-2.0"
  const SPDX := "SPDX-License-Identifier:"
  const GENERATED_MARKER := "@generated"

  /** The lines searched: the first twelve, after any shebang. */
  function Head(text: string): seq<string> {
    var lines := Lines(text);
    var rest := if lines != [] && StartsWith(lines[0], "#!") then lines[1..] else lines;
    if |rest| <= HEAD_LINES then rest else rest[..HEAD_LINES]
  }

  function CommentPayload(line: string): Option<string> {
    var trimmed := Trim(line);
    if StartsWith(trimmed, "//") then Some(TrimStart(trimmed[2..])) else None
  }

  predicate IsNotice(line: string) {
    CommentPayload(line) == Some(NOTICE)
  }

  predicate IsMarked(line: string, marker: string) {
    CommentPayload(line).Some? && StartsWith(CommentPayload(line).value, marker)
  }

  /** Some searched line that the whole-text scan finds outside every raw string satisfies `p`. */
  ghost predicate Declared(head: seq<string>, p: string -> bool) {
    exists i :: 0 <= i < |head| && StartsOutside(head, i) && p(head[i])
  }

  lemma {:induction false} LinesAreSingle(text: string)
    ensures SingleLines(Lines(text))
  {
    if text != "" {
      var i := IndexOf(text, '\n');
      if i < |text| {
        LinesAreSingle(text[i + 1..]);
        assert forall k :: 0 < k < |Lines(text)| ==> Lines(text)[k] == Lines(text[i + 1..])[k - 1];
      } else {
        assert text[..i] == text;
      }
    }
  }

  lemma {:induction false} OutsideHolds(head: seq<string>, n: nat, line: string)
    requires n <= |head|
    ensures line in Outside(head, n) <==> exists i :: 0 <= i < n && StartsOutside(head, i) && head[i] == line
  {
    if n > 0 {
      OutsideHolds(head, n - 1, line);
    }
  }

  /** Decides by real comment lines only, the notice first, then a generated marker, then another licence. */
  method Classify(text: string) returns (notice: Notice)
    ensures notice == Present <==> Declared(Head(text), IsNotice)
    ensures notice == Generated <==>
            !Declared(Head(text), IsNotice) && Declared(Head(text), (l: string) => IsMarked(l, GENERATED_MARKER))
    ensures notice == OtherLicense <==>
            && !Declared(Head(text), IsNotice) && !Declared(Head(text), (l: string) => IsMarked(l, GENERATED_MARKER))
            && Declared(Head(text), (l: string) => IsMarked(l, SPDX))
  {
    var head := Head(text);
    LinesAreSingle(text);
    hide StartsOutside, IsNotice, IsMarked;
    var outside := LinesOutsideRawStrings(head);
    forall line { OutsideHolds(head, |head|, line); }
    if exists line | line in outside :: IsNotice(line) {
      return Present;
    }
    if exists line | line in outside :: IsMarked(line, GENERATED_MARKER) {
      return Generated;
    }
    if exists line | line in outside :: IsMarked(line, SPDX) {
      return OtherLicense;
    }
    return MissingNotice;
  }
}
