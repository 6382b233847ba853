/** Cutting a document into blocks at headings and blank lines, and long blocks into bounded pieces. */
module Chunker {
  import opened Wrappers
  import opened Utf8

  const USIZE_MAX: nat := 0xFFFF_FFFF_FFFF_FFFF
  const ISIZE_MAX: nat := 0x7FFF_FFFF_FFFF_FFFF

  type Path = seq<Bytes>

  datatype Chunk = Chunk(text: Bytes, start: nat, headingPath: Path)
  datatype Block = Block(start: nat, end: nat, headingPath: Path)
  datatype Segment = Segment(start: nat, end: nat, line: Bytes)

  /** A text Rust can hold. */
  ghost predicate IsText(text: Bytes) {
    Valid(text) && |text| <= ISIZE_MAX
  }

  function ChunkForRange(text: Bytes, start: nat, end: nat, headingPath: Path): Chunk
    requires start <= end <= |text|
  {
    Chunk(Trim(text[start..end]), start, headingPath)
  }

  // ---- fixed-size pieces ----

  /** Where piece `k` ends: where the next one starts. */
  function PieceEnd(chunks: seq<Chunk>, k: nat, end: nat): nat
    requires k < |chunks|
  {
    if k + 1 < |chunks| then chunks[k + 1].start else end
  }

  /** `next` is the last boundary within `max` of `cursor`, or the end of the range when there is none. */
  ghost predicate Furthest(text: Bytes, cursor: nat, next: nat, end: nat, max: nat) {
    && cursor < next <= end && IsBoundary(text, next)
    && (next <= cursor + max ==> forall b :: next < b <= end && b <= cursor + max ==> !IsBoundary(text, b))
    && (next > cursor + max ==> next == end && forall b :: cursor < b <= cursor + max ==> !IsBoundary(text, b))
  }

  /** Piece `k` is a proper piece of the range up to `end`, when the pieces so far reach `reached`. */
  ghost predicate PieceOk(text: Bytes, reached: nat, end: nat, max: nat, headingPath: Path, chunks: seq<Chunk>, k: nat)
    requires k < |chunks|
  {
    var stop := PieceEnd(chunks, k, reached);
    && IsBoundary(text, chunks[k].start) && Furthest(text, chunks[k].start, stop, end, max) && stop <= |text|
    && chunks[k] == ChunkForRange(text, chunks[k].start, stop, headingPath)
  }

  /** The pieces follow one another from `start` to `reached` without gap or overlap, each reaching as far as it may. */
  ghost predicate Covers(text: Bytes, start: nat, reached: nat, end: nat, max: nat, headingPath: Path, chunks: seq<Chunk>) {
    && start <= reached <= end <= |text|
    && (chunks == [] <==> start == reached)
    && (chunks != [] ==> chunks[0].start == start)
    && forall k :: 0 <= k < |chunks| ==> PieceOk(text, reached, end, max, headingPath, chunks, k)
  }

  /** The pieces partition the whole range. */
  ghost predicate Partition(text: Bytes, start: nat, end: nat, max: nat, headingPath: Path, chunks: seq<Chunk>) {
    Covers(text, start, end, end, max, headingPath, chunks)
  }

  lemma CoversMore(text: Bytes, start: nat, cursor: nat, next: nat, end: nat, max: nat, headingPath: Path,
                   chunks: seq<Chunk>)
    requires Covers(text, start, cursor, end, max, headingPath, chunks)
    requires IsBoundary(text, cursor) && Furthest(text, cursor, next, end, max) && cursor < next <= end
    ensures Covers(text, start, next, end, max, headingPath, chunks + [ChunkForRange(text, cursor, next, headingPath)])
  {
    hide Furthest, IsBoundary;
    var longer := chunks + [ChunkForRange(text, cursor, next, headingPath)];
    forall k | 0 <= k < |longer| ensures PieceOk(text, next, end, max, headingPath, longer, k) {
      if k < |chunks| {
        assert PieceOk(text, cursor, end, max, headingPath, chunks, k);
        assert PieceEnd(longer, k, next) == PieceEnd(chunks, k, cursor);
      }
    }
  }

  /** The end of the piece that starts at `cursor`. */
  method NextCut(text: Bytes, cursor: nat, end: nat, max: nat) returns (next: nat)
    requires cursor < end <= |text| && IsBoundary(text, end)
    requires cursor + max <= USIZE_MAX
    ensures Furthest(text, cursor, next, end, max)
  {
    next := if cursor + max < end then cursor + max else end;
    while next > cursor && !IsBoundary(text, next)
      invariant cursor <= next <= end && next <= cursor + max
      invariant forall b :: next < b <= end && b <= cursor + max ==> !IsBoundary(text, b)
    {
      next := next - 1;
    }
    if next == cursor {
      next := end;
    }
  }

  method FixedRange(text: Bytes, start: nat, end: nat, max: nat, headingPath: Path) returns (chunks: seq<Chunk>)
    requires IsText(text) && start <= end <= |text| && IsBoundary(text, start) && IsBoundary(text, end)
    requires 0 < max <= USIZE_MAX && (start == 0 || max < end - start)
    ensures Partition(text, start, end, max, headingPath, chunks)
  {
    chunks := [];
    var cursor := start;
    while cursor < end
      invariant cursor <= end && IsBoundary(text, cursor)
      invariant cursor == start || cursor == end || max < end
      invariant Covers(text, start, cursor, end, max, headingPath, chunks)
    {
      // `cursor + max` is `max` itself or at most twice the text, so it never overflows
      assert cursor + max == max || cursor + max <= 2 * |text| <= USIZE_MAX;
      var next := NextCut(text, cursor, end, max);
      CoversMore(text, start, cursor, next, end, max, headingPath, chunks);
      chunks := chunks + [ChunkForRange(text, cursor, next, headingPath)];
      cursor := next;
    }
  }

  /** Every character of the range fits into a piece of its own. */
  ghost predicate CharactersFit(text: Bytes, start: nat, end: nat, max: nat)
    requires end <= |text|
  {
    forall i :: start <= i < end && IsBoundary(text, i) ==> CharLen(text[i]) <= max
  }

  ghost predicate Bounded(chunks: seq<Chunk>, end: nat, max: nat) {
    forall k :: 0 <= k < |chunks| ==> PieceEnd(chunks, k, end) - chunks[k].start <= max
  }

  lemma FittingPiece(text: Bytes, cursor: nat, next: nat, end: nat, max: nat)
    requires Valid(text) && cursor < end <= |text| && IsBoundary(text, cursor) && IsBoundary(text, end)
    requires Furthest(text, cursor, next, end, max) && CharLen(text[cursor]) <= max
    ensures next <= cursor + max
  {
    NextBoundary(text, cursor);
    var b := cursor + CharLen(text[cursor]);
    assert b <= end;
  }

  lemma {:induction false} StartsIncrease(text: Bytes, start: nat, end: nat, max: nat, headingPath: Path,
                                          chunks: seq<Chunk>, k: nat)
    requires Partition(text, start, end, max, headingPath, chunks) && k < |chunks|
    ensures start <= chunks[k].start < PieceEnd(chunks, k, end) <= end
  {
    assert PieceOk(text, end, end, max, headingPath, chunks, k);
    if k > 0 {
      StartsIncrease(text, start, end, max, headingPath, chunks, k - 1);
    }
  }

  /** Any position of the range lies in some piece. */
  lemma {:induction false} PieceAt(text: Bytes, start: nat, end: nat, max: nat, headingPath: Path, chunks: seq<Chunk>,
                                   i: nat, k: nat) returns (p: nat)
    requires Partition(text, start, end, max, headingPath, chunks) && k < |chunks| && chunks[k].start <= i < end
    ensures k <= p < |chunks| && chunks[p].start <= i < PieceEnd(chunks, p, end)
    decreases |chunks| - k
  {
    if i < PieceEnd(chunks, k, end) {
      p := k;
    } else {
      p := PieceAt(text, start, end, max, headingPath, chunks, i, k + 1);
    }
  }

  /** All pieces stay within `max` bytes exactly when no single character is longer than that. */
  lemma PiecesBounded(text: Bytes, start: nat, end: nat, max: nat, headingPath: Path, chunks: seq<Chunk>)
    requires Valid(text) && Partition(text, start, end, max, headingPath, chunks)
    requires IsBoundary(text, start) && IsBoundary(text, end)
    ensures Bounded(chunks, end, max) <==> CharactersFit(text, start, end, max)
    ensures max >= 4 ==> Bounded(chunks, end, max)
  {
    forall i | start <= i < end && IsBoundary(text, i) ensures CharLen(text[i]) <= 4 {
      NextBoundary(text, i);
    }
    if CharactersFit(text, start, end, max) {
      forall k | 0 <= k < |chunks| ensures PieceEnd(chunks, k, end) - chunks[k].start <= max {
        StartsIncrease(text, start, end, max, headingPath, chunks, k);
        assert PieceOk(text, end, end, max, headingPath, chunks, k);
        FittingPiece(text, chunks[k].start, PieceEnd(chunks, k, end), end, max);
      }
    }
    forall i | start <= i < end && IsBoundary(text, i) && CharLen(text[i]) > max ensures !Bounded(chunks, end, max) {
      var p := PieceAt(text, start, end, max, headingPath, chunks, i, 0);
      NextBoundary(text, i);
      assert PieceOk(text, end, end, max, headingPath, chunks, p);
      assert IsBoundary(text, PieceEnd(chunks, p, end));
    }
  }

  // ---- lines and headings ----

  /** The next newline at or after `i`, or the end. */
  function LineEnd(text: Bytes, i: nat): (e: nat)
    requires i <= |text|
    ensures i <= e <= |text| && (e < |text| ==> text[e] == 0x0A)
    decreases |text| - i
  {
    if i == |text| || text[i] == 0x0A then i else LineEnd(text, i + 1)
  }

  /** The lines from `cursor` on, with their byte ranges, without their newlines. */
  function Segments(text: Bytes, cursor: nat): (segments: seq<Segment>)
    requires cursor <= |text|
    ensures segments == [] <==> cursor == |text|
    decreases |text| - cursor
  {
    if cursor == |text| then []
    else
      var end := LineEnd(text, cursor);
      [Segment(cursor, end, text[cursor..end])] + if end < |text| then Segments(text, end + 1) else []
  }

  lemma SegmentsStep(text: Bytes, cursor: nat)
    requires cursor < |text|
    ensures var end := LineEnd(text, cursor);
            var segments := Segments(text, cursor);
            var rest := if end < |text| then Segments(text, end + 1) else [];
            && |segments| == 1 + |rest| && segments[0] == Segment(cursor, end, text[cursor..end])
            && forall k :: 0 < k < |segments| ==> segments[k] == rest[k - 1]
  {
  }

  /** A range of the text between newlines, and its content. */
  ghost predicate IsLine(text: Bytes, s: Segment) {
    && s.start <= s.end <= |text| && s.line == text[s.start..s.end]
    && (s.start == 0 || text[s.start - 1] == 0x0A) && (s.end == |text| || text[s.end] == 0x0A)
    && 0x0A !in s.line
  }

  lemma FirstLine(text: Bytes, cursor: nat)
    requires cursor < |text| && (cursor == 0 || text[cursor - 1] == 0x0A)
    ensures IsLine(text, Segment(cursor, LineEnd(text, cursor), text[cursor..LineEnd(text, cursor)]))
  {
    NoNewlineBefore(text, cursor);
  }

  lemma {:induction false} SegmentsAreLines(text: Bytes, cursor: nat, k: nat)
    requires cursor <= |text| && (cursor == 0 || text[cursor - 1] == 0x0A) && k < |Segments(text, cursor)|
    ensures IsLine(text, Segments(text, cursor)[k]) && cursor <= Segments(text, cursor)[k].start
    ensures k == 0 ==> Segments(text, cursor)[k].start == cursor
    ensures k > 0 ==> Segments(text, cursor)[k].start == Segments(text, cursor)[k - 1].end + 1
    decreases |text| - cursor
  {
    hide Segments, LineEnd, IsLine;
    SegmentsStep(text, cursor);
    if k == 0 {
      FirstLine(text, cursor);
    } else {
      SegmentsAreLines(text, LineEnd(text, cursor) + 1, k - 1);
    }
  }

  lemma {:induction false} NoNewlineBefore(text: Bytes, i: nat)
    requires i <= |text|
    ensures forall k :: i <= k < LineEnd(text, i) ==> text[k] != 0x0A
    decreases |text| - i
  {
    if i < |text| && text[i] != 0x0A { NoNewlineBefore(text, i + 1); }
  }

  /** Past the hashes that start at `i`. */
  function SkipHashes(line: Bytes, i: nat): (r: nat)
    requires i <= |line|
    ensures i <= r <= |line|
    decreases |line| - i
  {
    if i < |line| && line[i] == 0x23 then SkipHashes(line, i + 1) else i
  }

  datatype HeadingLine = HeadingLine(level: nat, title: Bytes)

  /** Level and title of a heading: one to six hashes and a title that is not blank. */
  function Heading(line: Bytes): (h: Option<HeadingLine>)
    ensures h.Some? ==> 1 <= h.value.level <= 6 && h.value.title != []
  {
    var start := SkipSpace(line, 0);
    var past := SkipHashes(line, start);
    var title := Trim(line[past..]);
    if 1 <= past - start <= 6 && title != [] then Some(HeadingLine(past - start, title)) else None
  }

  predicate IsBlank(line: Bytes) {
    Trim(line) == []
  }

  /** A line of running text: neither a heading nor blank. */
  predicate IsBody(s: Segment) {
    Heading(s.line).None? && !IsBlank(s.line)
  }

  function Keep(path: Path, n: nat): Path {
    if |path| <= n then path else path[..n]
  }

  /** A heading closes the open ones at its level and deeper, then opens itself. */
  function AfterLine(headings: Path, line: Bytes): Path {
    match Heading(line)
    case Some(h) => Keep(headings, h.level - 1) + [h.title]
    case None => headings
  }

  /** The headings open where line `i` starts. */
  function HeadingsBefore(segments: seq<Segment>, i: nat): Path
    requires i <= |segments|
  {
    if i == 0 then [] else AfterLine(HeadingsBefore(segments, i - 1), segments[i - 1].line)
  }

  // ---- blocks ----

  /** The lines from `first` up to but not including `past`. */
  datatype Run = Run(first: nat, past: nat)

  /** A maximal run of body lines. */
  ghost predicate IsRun(segments: seq<Segment>, run: Run) {
    && run.first < run.past <= |segments|
    && (forall i :: run.first <= i < run.past ==> IsBody(segments[i]))
    && (run.first > 0 ==> !IsBody(segments[run.first - 1]))
    && (run.past < |segments| ==> !IsBody(segments[run.past]))
  }

  /** Where the body lines just before line `i` begin. */
  ghost function RunStart(segments: seq<Segment>, i: nat): (first: nat)
    requires i <= |segments|
    ensures first <= i
  {
    if i == 0 || !IsBody(segments[i - 1]) then i else RunStart(segments, i - 1)
  }

  /** The body lines just before line `i`, if there are any. */
  ghost function LastRun(segments: seq<Segment>, i: nat): (r: seq<Run>)
    requires i <= |segments|
    ensures |r| <= 1
  {
    if RunStart(segments, i) < i then [Run(RunStart(segments, i), i)] else []
  }

  ghost predicate InRange(runs: seq<Run>, n: nat) {
    forall k :: 0 <= k < |runs| ==> runs[k].first < runs[k].past <= n
  }

  /** The runs that a line before line `i` has ended. */
  ghost function Ended(segments: seq<Segment>, i: nat): (r: seq<Run>)
    requires i <= |segments|
    ensures InRange(r, i)
  {
    if i == 0 then []
    else if IsBody(segments[i - 1]) then Ended(segments, i - 1)
    else Ended(segments, i - 1) + LastRun(segments, i - 1)
  }

  /** The runs of body lines among the first `i` lines. */
  ghost function Runs(segments: seq<Segment>, i: nat): (r: seq<Run>)
    requires i <= |segments|
    ensures InRange(r, i)
  {
    Ended(segments, i) + LastRun(segments, i)
  }

  ghost function BlockOf(segments: seq<Segment>, run: Run): Block
    requires run.first < run.past <= |segments|
  {
    Block(segments[run.first].start, segments[run.past - 1].end, HeadingsBefore(segments, run.first))
  }

  ghost function BlocksOf(segments: seq<Segment>, runs: seq<Run>): (r: seq<Block>)
    requires InRange(runs, |segments|)
    ensures |r| == |runs| && forall k :: 0 <= k < |r| ==> r[k] == BlockOf(segments, runs[k])
  {
    if runs == [] then []
    else BlocksOf(segments, runs[..|runs| - 1]) + [BlockOf(segments, runs[|runs| - 1])]
  }

  datatype Paragraph = Paragraph(start: nat, end: nat, headingPath: Path)

  function Flushed(blocks: seq<Block>, paragraph: Option<Paragraph>): seq<Block> {
    match paragraph
    case Some(p) => if p.end > p.start then blocks + [Block(p.start, p.end, p.headingPath)] else blocks
    case None => blocks
  }

  /** The open paragraph after one more body line. */
  function Extended(paragraph: Option<Paragraph>, segment: Segment, headings: Path): Paragraph {
    match paragraph
    case Some(p) => p.(end := segment.end)
    case None => Paragraph(segment.start, segment.end, headings)
  }

  /** The paragraph open before line `i`. */
  ghost function Open(segments: seq<Segment>, i: nat): Option<Paragraph>
    requires i <= |segments|
  {
    var first := RunStart(segments, i);
    if first == i then None
    else Some(Paragraph(segments[first].start, segments[i - 1].end, HeadingsBefore(segments, first)))
  }

  /** Pops the headings at the level of the new one and deeper, then adds it. */
  method PushHeading(headings: Path, level: nat, title: Bytes) returns (r: Path)
    requires level >= 1
    ensures r == Keep(headings, level - 1) + [title]
  {
    r := headings;
    while |r| >= level
      invariant Keep(r, level - 1) == Keep(headings, level - 1)
      decreases |r|
    {
      r := r[..|r| - 1];
    }
    r := r + [title];
  }

  method FlushParagraph(blocks: seq<Block>, paragraph: Option<Paragraph>) returns (r: seq<Block>)
    ensures r == Flushed(blocks, paragraph)
  {
    r := blocks;
    if paragraph.Some? {
      var Paragraph(start, end, headingPath) := paragraph.value;
      if end > start {
        r := r + [Block(start, end, headingPath)];
      }
    }
  }

  lemma BodyHasText(text: Bytes, s: Segment)
    requires IsLine(text, s) && IsBody(s)
    ensures s.start < s.end
  {
  }

  lemma {:induction false} RunHasText(text: Bytes, segments: seq<Segment>, i: nat)
    requires segments == Segments(text, 0) && i <= |segments|
    ensures var first := RunStart(segments, i); first < i ==> segments[first].start < segments[i - 1].end
  {
    hide Segments, HeadingsBefore, IsBody, IsLine;
    if i > 0 && IsBody(segments[i - 1]) {
      SegmentsAreLines(text, 0, i - 1);
      BodyHasText(text, segments[i - 1]);
      RunHasText(text, segments, i - 1);
    }
  }

  /** Closing the open paragraph leaves a block for every run so far. */
  lemma FlushCloses(text: Bytes, segments: seq<Segment>, i: nat)
    requires segments == Segments(text, 0) && i <= |segments|
    ensures Flushed(BlocksOf(segments, Ended(segments, i)), Open(segments, i)) == BlocksOf(segments, Runs(segments, i))
  {
    hide IsBody, HeadingsBefore, Segments, BlocksOf, RunStart, Ended;
    RunHasText(text, segments, i);
    assert RunStart(segments, i) == i ==> Runs(segments, i) == Ended(segments, i);
  }

  lemma HeadingStep(segments: seq<Segment>, i: nat, j: nat)
    requires i < |segments| && j == i + 1
    ensures HeadingsBefore(segments, j) == AfterLine(HeadingsBefore(segments, i), segments[i].line)
  {
    hide AfterLine;
  }

  /** A body line opens a paragraph or moves its end; any other line leaves none open. */
  lemma OpenStep(segments: seq<Segment>, i: nat, j: nat)
    requires i < |segments| && j == i + 1
    ensures Open(segments, j) ==
            if IsBody(segments[i]) then Some(Extended(Open(segments, i), segments[i], HeadingsBefore(segments, i)))
            else None
  {
    hide IsBody, HeadingsBefore;
  }

  lemma EndedStep(segments: seq<Segment>, i: nat, j: nat)
    requires i < |segments| && j == i + 1
    ensures Ended(segments, j) == if IsBody(segments[i]) then Ended(segments, i) else Runs(segments, i)
  {
    hide IsBody, HeadingsBefore, RunStart, LastRun;
  }

  lemma StartBlocks(segments: seq<Segment>)
    ensures BlocksOf(segments, Ended(segments, 0)) == [] && HeadingsBefore(segments, 0) == [] && Open(segments, 0) == None
  {
  }

  /** One block for every maximal run of body lines. */
  ghost function Blocks(text: Bytes): seq<Block> {
    var segments := Segments(text, 0);
    BlocksOf(segments, Runs(segments, |segments|))
  }

  method DocBlocks(text: Bytes) returns (blocks: seq<Block>)
    ensures blocks == Blocks(text)
  {
    hide Segments, BlockOf, BlocksOf, Runs, RunStart, LastRun, Extended, Flushed, Keep, Heading, IsBlank,
         HeadingsBefore, Ended, Open;
    var segments := Segments(text, 0);
    StartBlocks(segments);
    blocks := [];
    var headings: Path := [];
    var paragraph: Option<Paragraph> := None;
    for i := 0 to |segments|
      invariant blocks == BlocksOf(segments, Ended(segments, i))
      invariant headings == HeadingsBefore(segments, i)
      invariant paragraph == Open(segments, i)
    {
      FlushCloses(text, segments, i);
      HeadingStep(segments, i, i + 1);
      OpenStep(segments, i, i + 1);
      EndedStep(segments, i, i + 1);
      assert IsBody(segments[i]) <==> Heading(segments[i].line).None? && !IsBlank(segments[i].line);
      var heading := Heading(segments[i].line);
      if heading.Some? {
        blocks := FlushParagraph(blocks, paragraph);
        paragraph := None;
        headings := PushHeading(headings, heading.value.level, heading.value.title);
      } else if IsBlank(segments[i].line) {
        blocks := FlushParagraph(blocks, paragraph);
        paragraph := None;
      } else {
        paragraph := Some(Extended(paragraph, segments[i], headings));
      }
    }
    FlushCloses(text, segments, |segments|);
    blocks := FlushParagraph(blocks, paragraph);
  }

  // ---- what the blocks are ----

  lemma {:induction false} RunStartIsFirst(segments: seq<Segment>, i: nat)
    requires i <= |segments|
    ensures var first := RunStart(segments, i);
            && (forall j :: first <= j < i ==> IsBody(segments[j]))
            && (first > 0 ==> !IsBody(segments[first - 1]))
  {
    hide IsBody;
    if i > 0 && IsBody(segments[i - 1]) {
      RunStartIsFirst(segments, i - 1);
    }
  }

  lemma LastRunIsRun(segments: seq<Segment>, i: nat)
    requires i <= |segments| && (i < |segments| ==> !IsBody(segments[i]))
    ensures LastRun(segments, i) != [] ==> IsRun(segments, LastRun(segments, i)[0])
  {
    hide IsBody;
    RunStartIsFirst(segments, i);
  }

  /** An ended run is one that was already ended, or the last run before a line that is not body. */
  lemma EndedRun(segments: seq<Segment>, i: nat, k: nat)
    requires i <= |segments| && k < |Ended(segments, i)|
    ensures i > 0
    ensures k < |Ended(segments, i - 1)| ==> Ended(segments, i)[k] == Ended(segments, i - 1)[k]
    ensures k >= |Ended(segments, i - 1)| ==>
              !IsBody(segments[i - 1]) && LastRun(segments, i - 1) == [Ended(segments, i)[k]]
  {
    hide IsBody, RunStart;
  }

  lemma {:induction false} EndedAreRuns(segments: seq<Segment>, i: nat, k: nat)
    requires i <= |segments| && k < |Ended(segments, i)|
    ensures IsRun(segments, Ended(segments, i)[k])
  {
    hide IsBody, Ended, IsRun, LastRun, Runs;
    EndedRun(segments, i, k);
    if k < |Ended(segments, i - 1)| {
      EndedAreRuns(segments, i - 1, k);
    } else {
      LastRunIsRun(segments, i - 1);
    }
  }

  /** A line that is not body keeps the runs before it from touching the next one. */
  lemma {:induction false} EndedBeforeOpen(segments: seq<Segment>, i: nat, k: nat)
    requires i <= |segments| && k < |Ended(segments, i)|
    ensures Ended(segments, i)[k].past < RunStart(segments, i)
  {
    hide IsBody;
    if IsBody(segments[i - 1]) {
      EndedBeforeOpen(segments, i - 1, k);
    }
  }

  lemma {:induction false} EndedInOrder(segments: seq<Segment>, i: nat, j: nat, k: nat)
    requires i <= |segments| && j < k < |Ended(segments, i)|
    ensures Ended(segments, i)[j].past < Ended(segments, i)[k].first
  {
    hide IsBody;
    if IsBody(segments[i - 1]) || k < |Ended(segments, i - 1)| {
      EndedInOrder(segments, i - 1, j, k);
    } else {
      EndedBeforeOpen(segments, i - 1, j);
    }
  }

  /** The run a body line belongs to. */
  lemma {:induction false} RunAt(segments: seq<Segment>, i: nat, l: nat) returns (k: nat)
    requires l < i <= |segments| && IsBody(segments[l])
    ensures k < |Runs(segments, i)| && Runs(segments, i)[k].first <= l < Runs(segments, i)[k].past
  {
    hide IsBody;
    if RunStart(segments, i) <= l {
      k := |Ended(segments, i)|;
    } else {
      k := RunAt(segments, i - 1, l);
    }
  }

  ghost predicate InSomeRun(runs: seq<Run>, l: nat) {
    exists k :: 0 <= k < |runs| && runs[k].first <= l < runs[k].past
  }

  /** The runs are the maximal runs of body lines, apart and in order, and together hold exactly the body lines. */
  lemma RunsAreParagraphs(segments: seq<Segment>)
    ensures var runs := Runs(segments, |segments|);
            && (forall k :: 0 <= k < |runs| ==> IsRun(segments, runs[k]))
            && (forall j, k :: 0 <= j < k < |runs| ==> runs[j].past < runs[k].first)
            && (forall l :: 0 <= l < |segments| && IsBody(segments[l]) ==> InSomeRun(runs, l))
  {
    hide IsBody, Ended, RunStart;
    var n := |segments|;
    var runs := Runs(segments, n);
    var ended := Ended(segments, n);
    assert runs == ended + LastRun(segments, n);
    forall k | 0 <= k < |runs| ensures IsRun(segments, runs[k]) {
      if k < |ended| {
        EndedAreRuns(segments, n, k);
      } else {
        LastRunIsRun(segments, n);
      }
    }
    forall j, k | 0 <= j < k < |runs| ensures runs[j].past < runs[k].first {
      if k < |ended| {
        EndedInOrder(segments, n, j, k);
      } else {
        EndedBeforeOpen(segments, n, j);
        assert runs[k] == LastRun(segments, n)[0];
      }
    }
    forall l | 0 <= l < n && IsBody(segments[l]) ensures InSomeRun(runs, l) {
      var k := RunAt(segments, n, l);
    }
  }

  lemma {:induction false} SegmentsInOrder(text: Bytes, j: nat, k: nat)
    requires j < k < |Segments(text, 0)|
    ensures Segments(text, 0)[j].end < Segments(text, 0)[k].start
    decreases k - j
  {
    hide Segments, IsLine;
    SegmentsAreLines(text, 0, k);
    if j < k - 1 {
      SegmentsInOrder(text, j, k - 1);
      LineInText(text, k - 1);
    }
  }

  lemma LineInText(text: Bytes, k: nat)
    requires k < |Segments(text, 0)|
    ensures var s := Segments(text, 0)[k]; s.start <= s.end <= |text|
  {
    hide Segments;
    SegmentsAreLines(text, 0, k);
  }

  lemma LineOnBoundaries(text: Bytes, s: Segment)
    requires Valid(text) && IsLine(text, s)
    ensures IsBoundary(text, s.start) && IsBoundary(text, s.end)
  {
    if s.start > 0 {
      NextBoundary(text, s.start - 1);
    }
  }

  lemma RunInText(text: Bytes, segments: seq<Segment>, run: Run)
    requires Valid(text) && segments == Segments(text, 0)
    requires run.first < run.past <= |segments| && IsBody(segments[run.first])
    ensures var b := BlockOf(segments, run);
            b.start < b.end <= |text| && IsBoundary(text, b.start) && IsBoundary(text, b.end)
  {
    hide Segments, IsBody, IsLine, IsBoundary, HeadingsBefore, Valid;
    SegmentsAreLines(text, 0, run.first);
    LineOnBoundaries(text, segments[run.first]);
    BodyHasText(text, segments[run.first]);
    var last := run.past - 1;
    SegmentsAreLines(text, 0, last);
    LineOnBoundaries(text, segments[last]);
    LineInText(text, last);
    if run.first < run.past - 1 {
      SegmentsInOrder(text, run.first, run.past - 1);
    }
  }

  lemma RunStartsInBody(segments: seq<Segment>, run: Run)
    requires IsRun(segments, run)
    ensures run.first < run.past <= |segments| && IsBody(segments[run.first])
  {
    hide IsBody;
  }

  /** Blocks are not empty, start and end between characters, and neither overlap nor touch. */
  lemma BlocksInText(text: Bytes, k: nat)
    requires Valid(text) && k < |Blocks(text)|
    ensures var b := Blocks(text)[k]; b.start < b.end <= |text| && IsBoundary(text, b.start) && IsBoundary(text, b.end)
    ensures k + 1 < |Blocks(text)| ==> Blocks(text)[k].end < Blocks(text)[k + 1].start
  {
    hide Segments, Runs, IsBody, IsBoundary, HeadingsBefore, IsRun, InSomeRun, Valid, BlocksOf;
    var segments := Segments(text, 0);
    var runs := Runs(segments, |segments|);
    RunsAreParagraphs(segments);
    RunStartsInBody(segments, runs[k]);
    RunInText(text, segments, runs[k]);
    if k + 1 < |runs| {
      SegmentsInOrder(text, runs[k].past - 1, runs[k + 1].first);
    }
  }

  /** Every body line lies in some block. */
  lemma BodyLineInBlock(text: Bytes, l: nat) returns (k: nat)
    requires l < |Segments(text, 0)| && IsBody(Segments(text, 0)[l])
    ensures k < |Blocks(text)|
    ensures Blocks(text)[k].start <= Segments(text, 0)[l].start && Segments(text, 0)[l].end <= Blocks(text)[k].end
  {
    hide Segments, IsBody, HeadingsBefore, Runs;
    var segments := Segments(text, 0);
    k := RunAt(segments, |segments|, l);
    var run := Runs(segments, |segments|)[k];
    LineInText(text, l);
    if run.first < l {
      SegmentsInOrder(text, run.first, l);
      LineInText(text, run.first);
    }
    if l < run.past - 1 {
      SegmentsInOrder(text, l, run.past - 1);
      LineInText(text, run.past - 1);
    }
  }

  // ---- the heading path as an outline ----

  /** Those of the first `n` headings that are less deep than `level`. */
  ghost function Shallower(outline: seq<HeadingLine>, level: nat, n: nat): seq<HeadingLine>
    requires n <= |outline|
  {
    if n == 0 then []
    else if outline[n - 1].level < level then Shallower(outline, level, n - 1) + [outline[n - 1]]
    else Shallower(outline, level, n - 1)
  }

  ghost function Enclosing(outline: seq<HeadingLine>, level: nat): seq<HeadingLine> {
    Shallower(outline, level, |outline|)
  }

  /** The headings whose sections contain line `i`: those with no heading at their level or above since. */
  ghost function Outline(segments: seq<Segment>, i: nat): seq<HeadingLine>
    requires i <= |segments|
  {
    if i == 0 then []
    else
      match Heading(segments[i - 1].line)
      case Some(h) => Enclosing(Outline(segments, i - 1), h.level) + [h]
      case None => Outline(segments, i - 1)
  }

  ghost predicate SameTitles(outline: seq<HeadingLine>, path: Path) {
    |path| == |outline| && forall k :: 0 <= k < |outline| ==> outline[k].title == path[k]
  }

  /** Deeper and deeper from level 1 at the least. */
  ghost predicate Deepening(outline: seq<HeadingLine>) {
    && (forall k :: 0 <= k < |outline| ==> outline[k].level > 0)
    && (forall j, k :: 0 <= j < k < |outline| ==> outline[j].level < outline[k].level)
  }

  /** The last of the open headings that a heading at `level` leaves open, were only their number to count. */
  ghost predicate LeavesShallower(outline: seq<HeadingLine>, level: nat) {
    var kept := if |outline| < level then |outline| else level - 1;
    kept > 0 ==> outline[kept - 1].level < level
  }

  lemma {:induction false} DeepeningLevels(outline: seq<HeadingLine>, k: nat)
    requires Deepening(outline) && k < |outline|
    ensures outline[k].level > k
  {
    if k > 0 {
      DeepeningLevels(outline, k - 1);
    }
  }

  /** In an outline that deepens, the shallower headings are the first ones. */
  lemma {:induction false} ShallowerIsPrefix(outline: seq<HeadingLine>, level: nat, n: nat) returns (c: nat)
    requires Deepening(outline) && n <= |outline|
    ensures c <= n && Shallower(outline, level, n) == outline[..c]
    ensures forall k :: 0 <= k < n ==> (outline[k].level < level <==> k < c)
  {
    if n == 0 {
      c := 0;
    } else {
      c := ShallowerIsPrefix(outline, level, n - 1);
      assert forall k :: 0 <= k < n - 1 ==> outline[k].level < outline[n - 1].level;
      if outline[n - 1].level < level {
        c := n;
        assert outline[..n - 1] + [outline[n - 1]] == outline[..n];
      }
    }
  }

  /** Counting levels closes exactly the headings that are not shallower when it leaves open none of these. */
  lemma KeepIsShallower(outline: seq<HeadingLine>, path: Path, h: HeadingLine)
    requires Deepening(outline) && SameTitles(outline, path) && h.level >= 1
    ensures Deepening(Enclosing(outline, h.level) + [h])
    ensures SameTitles(Enclosing(outline, h.level) + [h], Keep(path, h.level - 1) + [h.title]) <==>
            LeavesShallower(outline, h.level)
  {
    hide Shallower;
    var c := ShallowerIsPrefix(outline, h.level, |outline|);
    var kept := if |outline| < h.level then |outline| else h.level - 1;
    if c > 0 { DeepeningLevels(outline, c - 1); }
    assert LeavesShallower(outline, h.level) <==> c == kept;
    var shallower, shorter := outline[..c] + [h], Keep(path, h.level - 1) + [h.title];
    assert |shorter| == kept + 1;
  }

  /** Up to line `i` the paths hold the titles of the outline. */
  ghost predicate PathsAreOutlines(segments: seq<Segment>, i: nat)
    requires i <= |segments|
  {
    && SameTitles(Outline(segments, i), HeadingsBefore(segments, i))
    && (i > 0 ==> PathsAreOutlines(segments, i - 1))
  }

  /** Every heading before line `i` is deeper than the headings that it leaves open by their number. */
  ghost predicate AllLeaveShallower(segments: seq<Segment>, i: nat)
    requires i <= |segments|
  {
    i > 0 ==>
      && (var h := Heading(segments[i - 1].line); h.Some? ==> LeavesShallower(Outline(segments, i - 1), h.value.level))
      && AllLeaveShallower(segments, i - 1)
  }

  lemma {:induction false} OutlineDeepens(segments: seq<Segment>, i: nat)
    requires i <= |segments|
    ensures Deepening(Outline(segments, i))
  {
    hide Heading, Shallower;
    if i > 0 {
      OutlineDeepens(segments, i - 1);
      var outline := Outline(segments, i - 1);
      if Heading(segments[i - 1].line).Some? {
        var h := Heading(segments[i - 1].line).value;
        var c := ShallowerIsPrefix(outline, h.level, |outline|);
      }
    }
  }

  /** The kept paths are the outline exactly while no heading leaves a deeper one open. */
  lemma {:induction false} PathIsOutline(segments: seq<Segment>, i: nat)
    requires i <= |segments|
    ensures PathsAreOutlines(segments, i) <==> AllLeaveShallower(segments, i)
  {
    hide Heading, Enclosing, Keep, Deepening, LeavesShallower;
    if i > 0 {
      PathIsOutline(segments, i - 1);
      OutlineDeepens(segments, i - 1);
      var outline, path := Outline(segments, i - 1), HeadingsBefore(segments, i - 1);
      if Heading(segments[i - 1].line).Some? && SameTitles(outline, path) {
        KeepIsShallower(outline, path, Heading(segments[i - 1].line).value);
      }
    }
  }

  /** A skipped level can break this: a level-2 heading after a level-3 one is put below it. */
  lemma SkippedLevelStaysOpen(segments: seq<Segment>, deep: Bytes, title: Bytes)
    requires |segments| == 2
    requires Heading(segments[0].line) == Some(HeadingLine(3, deep)) && Heading(segments[1].line) == Some(HeadingLine(2, title))
    ensures HeadingsBefore(segments, 2) == [deep, title]
    ensures Outline(segments, 2) == [HeadingLine(2, title)]
  {
    hide Heading;
    assert HeadingsBefore(segments, 0) == [] && Outline(segments, 0) == [];
    assert HeadingsBefore(segments, 1) == [deep] && Outline(segments, 1) == [HeadingLine(3, deep)];
    assert Shallower([HeadingLine(3, deep)], 2, 0) == [];
    assert Enclosing([HeadingLine(3, deep)], 2) == [];
  }

  /** The lines `###a` and `##b`. */
  const SKIPPING: Bytes := [0x23, 0x23, 0x23, 0x61, 0x0A, 0x23, 0x23, 0x62]

  /** The heading a line of hashes and one letter makes. */
  lemma HashesAndLetter(line: Bytes, n: nat)
    requires 1 <= n <= 6 && |line| == n + 1 && 0x61 <= line[n] <= 0x7A && forall k :: 0 <= k < n ==> line[k] == 0x23
    ensures Heading(line) == Some(HeadingLine(n, [line[n]]))
  {
    assert SkipSpace(line, 0) == 0;
    HashesEnd(line, n, 0);
    assert line[n..] == [line[n]];
    LetterStays(line[n..]);
  }

  lemma {:induction false} HashesEnd(line: Bytes, n: nat, i: nat)
    requires i <= n < |line| && line[n] != 0x23 && forall k :: i <= k < n ==> line[k] == 0x23
    ensures SkipHashes(line, i) == n
    decreases n - i
  {
    if i < n {
      HashesEnd(line, n, i + 1);
    }
  }

  lemma LetterStays(s: Bytes)
    requires |s| == 1 && 0x61 <= s[0] <= 0x7A
    ensures Trim(s) == s
  {
  }

  lemma {:induction false} LineEndAt(text: Bytes, i: nat, e: nat)
    requires i <= e <= |text| && (e < |text| ==> text[e] == 0x0A) && forall k :: i <= k < e ==> text[k] != 0x0A
    ensures LineEnd(text, i) == e
    decreases e - i
  {
    if i < e {
      LineEndAt(text, i + 1, e);
    }
  }

  lemma TwoSegments(text: Bytes, e: nat)
    requires e + 1 < |text| && text[e] == 0x0A && forall k :: 0 <= k < |text| && k != e ==> text[k] != 0x0A
    ensures Segments(text, 0) == [Segment(0, e, text[..e]), Segment(e + 1, |text|, text[e + 1..])]
  {
    hide LineEnd;
    LineEndAt(text, 0, e);
    LineEndAt(text, e + 1, |text|);
    assert text[0..e] == text[..e] && text[e + 1..|text|] == text[e + 1..];
    assert Segments(text, e + 1) == [Segment(e + 1, |text|, text[e + 1..])];
  }

  /** In this text a level-2 heading is put below a level-3 one. */
  lemma SkippedLevelExample()
    ensures IsText(SKIPPING)
    ensures var segments := Segments(SKIPPING, 0);
            && |segments| == 2
            && HeadingsBefore(segments, 2) == [[0x61], [0x62]] && Outline(segments, 2) == [HeadingLine(2, [0x62])]
  {
    hide Segments, Heading, HeadingsBefore, Outline, Valid;
    var segments := Segments(SKIPPING, 0);
    TwoSegments(SKIPPING, 4);
    assert segments[0].line == [0x23, 0x23, 0x23, 0x61] && segments[1].line == [0x23, 0x23, 0x62];
    HashesAndLetter(segments[0].line, 3);
    HashesAndLetter(segments[1].line, 2);
    SkippedLevelStaysOpen(segments, [0x61], [0x62]);
    AsciiIsText(SKIPPING);
  }

  lemma {:induction false} AsciiIsText(s: Bytes)
    requires forall k :: 0 <= k < |s| ==> s[k] < 0x80
    ensures Valid(s)
  {
    if s != [] {
      AsciiIsText(s[1..]);
    }
  }

  // ---- chunks ----

  ghost function Flatten(groups: seq<seq<Chunk>>): seq<Chunk> {
    if groups == [] then [] else Flatten(groups[..|groups| - 1]) + groups[|groups| - 1]
  }

  /** The ranges that are cut up: the blocks, or all of a text that has none. */
  ghost function Ranges(text: Bytes): seq<Block> {
    if Blocks(text) == [] && text != [] then [Block(0, |text|, [])] else Blocks(text)
  }

  /** The chunks come in one group for each range, and each group partitions its range. */
  ghost predicate IsChunking(text: Bytes, ranges: seq<Block>, max: nat, groups: seq<seq<Chunk>>) {
    && |groups| == |ranges|
    && forall k :: 0 <= k < |groups| ==> IsGroup(text, ranges[k], max, groups[k])
  }

  ghost predicate IsGroup(text: Bytes, range: Block, max: nat, group: seq<Chunk>) {
    range.start < range.end && Partition(text, range.start, range.end, max, range.headingPath, group)
  }

  lemma MoreGroups(text: Bytes, ranges: seq<Block>, i: nat, j: nat, max: nat, groups: seq<seq<Chunk>>, group: seq<Chunk>)
    requires i < |ranges| && j == i + 1
    requires IsChunking(text, ranges[..i], max, groups) && IsGroup(text, ranges[i], max, group)
    ensures IsChunking(text, ranges[..j], max, groups + [group])
    ensures Flatten(groups + [group]) == Flatten(groups) + group
  {
    hide IsGroup;
    assert (groups + [group])[..|groups|] == groups;
    assert ranges[..j] == ranges[..i] + [ranges[i]];
  }

  lemma NoGroups(text: Bytes, ranges: seq<Block>, max: nat)
    ensures IsChunking(text, ranges[..0], max, []) && Flatten([]) == []
  {
  }

  lemma AllGroups(text: Bytes, ranges: seq<Block>, max: nat, groups: seq<seq<Chunk>>)
    requires IsChunking(text, ranges[..|ranges|], max, groups)
    ensures IsChunking(text, ranges, max, groups)
  {
    assert ranges[..|ranges|] == ranges;
  }

  /** The chunks of one range. */
  method RangeChunks(text: Bytes, block: Block, max: nat) returns (pieces: seq<Chunk>)
    requires IsText(text) && 0 < max <= USIZE_MAX && block.start < block.end <= |text|
    requires IsBoundary(text, block.start) && IsBoundary(text, block.end)
    ensures IsGroup(text, block, max, pieces) && pieces != []
  {
    if block.end - block.start <= max {
      pieces := [ChunkForRange(text, block.start, block.end, block.headingPath)];
    } else {
      pieces := FixedRange(text, block.start, block.end, max, block.headingPath);
    }
  }

  /** The ranges' groups of chunks, one after another. */
  ghost predicate AreChunks(text: Bytes, ranges: seq<Block>, max: nat, chunks: seq<Chunk>) {
    exists groups :: chunks == Flatten(groups) && IsChunking(text, ranges, max, groups)
  }

  method F1RecursiveChunks(text: Bytes, limit: nat) returns (chunks: seq<Chunk>)
    requires IsText(text) && limit <= USIZE_MAX
    ensures AreChunks(text, Ranges(text), if limit == 0 then 1 else limit, chunks)
  {
    hide Blocks, IsGroup, IsChunking, Flatten, IsBoundary, Partition;
    var max := if limit > 1 then limit else 1;
    var blocks := DocBlocks(text);
    ghost var groups: seq<seq<Chunk>> := [];
    chunks := [];
    NoGroups(text, blocks, max);
    for i := 0 to |blocks|
      invariant chunks == Flatten(groups) && (i > 0 ==> chunks != [])
      invariant IsChunking(text, blocks[..i], max, groups)
    {
      BlocksInText(text, i);
      if blocks[i].end <= blocks[i].start {
        assert false;
      }
      var pieces := RangeChunks(text, blocks[i], max);
      MoreGroups(text, blocks, i, i + 1, max, groups, pieces);
      chunks, groups := chunks + pieces, groups + [pieces];
    }
    AllGroups(text, blocks, max, groups);
    if chunks == [] && text != [] {
      var all := Block(0, |text|, []);
      var pieces := FixedRange(text, 0, |text|, max, []);
      GroupFromPartition(text, all, max, pieces);
      NoGroups(text, [all], max);
      MoreGroups(text, [all], 0, 1, max, [], pieces);
      AllGroups(text, [all], max, [] + [pieces]);
      chunks, groups := chunks + pieces, [] + [pieces];
    }
  }

  lemma GroupFromPartition(text: Bytes, block: Block, max: nat, pieces: seq<Chunk>)
    requires block.start < block.end && Partition(text, block.start, block.end, max, block.headingPath, pieces)
    ensures IsGroup(text, block, max, pieces) && pieces != []
  {
  }

  lemma GroupBounded(text: Bytes, range: Block, max: nat, group: seq<Chunk>, k: nat)
    requires Valid(text) && IsGroup(text, range, max, group) && k < |group|
    requires IsBoundary(text, range.start) && IsBoundary(text, range.end)
    requires CharactersFit(text, 0, |text|, max)
    ensures |group[k].text| <= max
  {
    hide IsBoundary, CharLen;
    assert CharactersFit(text, range.start, range.end, max);
    PiecesBounded(text, range.start, range.end, max, range.headingPath, group);
    assert PieceOk(text, range.end, range.end, max, range.headingPath, group, k);
  }

  lemma {:induction false} InFlatten(groups: seq<seq<Chunk>>, c: Chunk) returns (i: nat, k: nat)
    requires c in Flatten(groups)
    ensures i < |groups| && k < |groups[i]| && groups[i][k] == c
  {
    var n := |groups| - 1;
    if c in groups[n] {
      i := n;
      k :| 0 <= k < |groups[n]| && groups[n][k] == c;
    } else {
      i, k := InFlatten(groups[..n], c);
    }
  }

  /** No chunk of a text is longer than a limit that no character exceeds, so than any limit of four bytes or more. */
  lemma ChunksBounded(text: Bytes, max: nat, chunks: seq<Chunk>, c: Chunk)
    requires Valid(text) && AreChunks(text, Ranges(text), max, chunks) && c in chunks
    requires CharactersFit(text, 0, |text|, max) || max >= 4
    ensures |c.text| <= max
  {
    hide IsGroup, Flatten, IsBoundary, CharLen, Blocks;
    if max >= 4 {
      FourBytesFit(text, max);
    }
    var groups :| chunks == Flatten(groups) && IsChunking(text, Ranges(text), max, groups);
    var i, k := InFlatten(groups, c);
    RangeInText(text, i);
    GroupBounded(text, Ranges(text)[i], max, groups[i], k);
  }

  lemma FourBytesFit(text: Bytes, max: nat)
    requires Valid(text) && max >= 4
    ensures CharactersFit(text, 0, |text|, max)
  {
    forall i | 0 <= i < |text| && IsBoundary(text, i) ensures CharLen(text[i]) <= max {
      NextBoundary(text, i);
    }
  }

  lemma RangeInText(text: Bytes, i: nat)
    requires Valid(text) && i < |Ranges(text)|
    ensures var range := Ranges(text)[i];
            range.start <= range.end <= |text| && IsBoundary(text, range.start) && IsBoundary(text, range.end)
  {
    hide Blocks, IsBoundary;
    EndsAreBoundaries(text);
    if Blocks(text) != [] {
      BlocksInText(text, i);
    }
  }

  lemma EndsAreBoundaries(text: Bytes)
    ensures IsBoundary(text, 0) && IsBoundary(text, |text|)
  {
  }

  /** A two-byte character cut to a limit of one byte makes a piece of two bytes. */
  lemma WideCharacterExceeds(chunks: seq<Chunk>)
    requires Partition([0xC3, 0xA9], 0, 2, 1, [], chunks)
    ensures !Bounded(chunks, 2, 1)
  {
    var text: Bytes := [0xC3, 0xA9];
    assert text[2..] == [] && Valid(text);
    assert IsBoundary(text, 0) && CharLen(text[0]) == 2;
    PiecesBounded(text, 0, 2, 1, [], chunks);
  }
}
