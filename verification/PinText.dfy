/** The committed identity's tables in a manifest: the writer, and the build script's own reader. */
module PinText {
  import opened Wrappers
  import opened Text

  const PIN_TABLE: string := "[workspace.metadata.sim.encoder]"
  const DIGEST_TABLE: string := "[workspace.metadata.sim.encoder.toolchain_sha256]"

  /** `toolchains` lists host and digest in the order of the hosts. */
  datatype EncoderPin = EncoderPin(
    source: string,
    lock: string,
    toolchain: string,
    rustc: string,
    cargo: string,
    toolchains: seq<(string, string)>)

  function Field(name: string, value: string): string {
    name + " = \"" + value + "\""
  }

  function Entries(toolchains: seq<(string, string)>): seq<string> {
    if toolchains == [] then [] else [Field(toolchains[0].0, toolchains[0].1)] + Entries(toolchains[1..])
  }

  function Fields(pin: EncoderPin): (r: seq<string>)
    ensures |r| == 6
  {
    [Field("source_sha256", pin.source), Field("lock_sha256", pin.lock), Field("toolchain", pin.toolchain),
     Field("rustc_commit", pin.rustc), Field("cargo_commit", pin.cargo), ""]
  }

  function TableLines(pin: EncoderPin): seq<string> {
    [PIN_TABLE] + Fields(pin) + [DIGEST_TABLE] + Entries(pin.toolchains)
  }

  function Table(pin: EncoderPin): string {
    Join(TableLines(pin)) + "\n"
  }

  // ---- writing ----

  predicate IsHeader(line: string) {
    StartsWith(Trim(line), "[")
  }

  predicate IsPinHeader(line: string) {
    Trim(line) == PIN_TABLE || Trim(line) == DIGEST_TABLE
  }

  /** The last header at or above line `k` is one of the two tables'. */
  predicate InPinTable(lines: seq<string>, k: nat)
    requires k < |lines|
  {
    if IsHeader(lines[k]) then IsPinHeader(lines[k]) else k > 0 && InPinTable(lines, k - 1)
  }

  /** Those of the first `n` lines that are outside the two tables. */
  function Outside(lines: seq<string>, n: nat): seq<string>
    requires n <= |lines|
  {
    if n == 0 then []
    else Outside(lines, n - 1) + if InPinTable(lines, n - 1) then [] else [lines[n - 1]]
  }

  /** The text that is kept. */
  function Kept(manifest: string): string {
    TrimEnd(Join(Outside(Lines(manifest), |Lines(manifest)|)))
  }

  function Written(pin: EncoderPin, manifest: string): string {
    Kept(manifest) + "\n" + ("\n" + Table(pin))
  }

  method WriteInto(pin: EncoderPin, manifest: string) returns (text: string)
    ensures text == Written(pin, manifest)
  {
    hide IsHeader, IsPinHeader;
    var lines := Lines(manifest);
    var kept, skipping := [], false;
    for i := 0 to |lines|
      invariant kept == Outside(lines, i)
      invariant skipping <==> i > 0 && InPinTable(lines, i - 1)
    {
      if IsHeader(lines[i]) {
        skipping := IsPinHeader(lines[i]);
      }
      if !skipping {
        kept := kept + [lines[i]];
      }
    }
    text := TrimEnd(Join(kept)) + "\n" + ("\n" + Table(pin));
  }

  // ---- reading ----

  function TrimMatchesStart(s: string, c: char): string {
    if s != "" && s[0] == c then TrimMatchesStart(s[1..], c) else s
  }

  function TrimMatchesEnd(s: string, c: char): string {
    if s != "" && s[|s| - 1] == c then TrimMatchesEnd(s[..|s| - 1], c) else s
  }

  function Unquoted(s: string): string {
    TrimMatchesEnd(TrimMatchesStart(Trim(s), '"'), '"')
  }

  /** The value a line gives to `host`, if it is about that host. */
  function ValueFor(line: string, host: string): Option<string> {
    var trimmed := Trim(line);
    var i := IndexOf(trimmed, '=');
    if i < |trimmed| && Unquoted(trimmed[..i]) == host then Some(Unquoted(trimmed[i + 1..])) else None
  }

  /** The last header at or above line `k` is the digest table's. */
  predicate InDigestTable(lines: seq<string>, k: nat)
    requires k < |lines|
  {
    if IsHeader(lines[k]) then Trim(lines[k]) == DIGEST_TABLE else k > 0 && InDigestTable(lines, k - 1)
  }

  /** Line `k` of the digest table is about `host`. */
  predicate Gives(lines: seq<string>, host: string, k: nat)
    requires k < |lines|
  {
    !IsHeader(lines[k]) && InDigestTable(lines, k) && ValueFor(lines[k], host).Some?
  }

  /** The value of the first line of the digest table that is about `host`, if there is one. */
  ghost predicate IsFirstValue(lines: seq<string>, host: string, digest: Option<string>) {
    match digest
    case None => forall k :: 0 <= k < |lines| ==> !Gives(lines, host, k)
    case Some(_) =>
      exists k :: && 0 <= k < |lines| && Gives(lines, host, k) && digest == ValueFor(lines[k], host)
                  && forall j :: 0 <= j < k ==> !Gives(lines, host, j)
  }

  /** The same value, found by going on from line `k`. */
  ghost function ReadFrom(lines: seq<string>, host: string, k: nat, inTable: bool): Option<string>
    requires k <= |lines|
    decreases |lines| - k
  {
    if k == |lines| then None
    else if IsHeader(lines[k]) then ReadFrom(lines, host, k + 1, Trim(lines[k]) == DIGEST_TABLE)
    else if inTable && ValueFor(lines[k], host).Some? then ValueFor(lines[k], host)
    else ReadFrom(lines, host, k + 1, inTable)
  }

  method PinnedToolchainDigest(manifest: string, host: string) returns (digest: Option<string>)
    ensures IsFirstValue(Lines(manifest), host, digest)
  {
    hide IsHeader, ValueFor;
    var lines := Lines(manifest);
    var inTable := false;
    for i := 0 to |lines|
      invariant inTable <==> i > 0 && InDigestTable(lines, i - 1)
      invariant forall j :: 0 <= j < i ==> !Gives(lines, host, j)
    {
      if IsHeader(lines[i]) {
        inTable := Trim(lines[i]) == DIGEST_TABLE;
      } else if inTable {
        var value := ValueFor(lines[i], host);
        if value.Some? {
          assert Gives(lines, host, i);
          return value;
        }
      }
    }
    return None;
  }

  // ---- trimming ----

  lemma {:induction false} TrimEndKeepsFirst(s: string)
    ensures s != "" && !IsWhitespace(s[0]) ==> TrimEnd(s) != "" && TrimEnd(s)[0] == s[0]
    ensures TrimEnd(s) <= s
  {
    hide IsWhitespace;
    if s != "" && IsWhitespace(s[|s| - 1]) {
      TrimEndKeepsFirst(s[..|s| - 1]);
    }
  }

  /** The characters of a trimmed text are characters of the text. */
  lemma {:induction false} TrimStartWithin(s: string, c: char)
    ensures c in TrimStart(s) ==> c in s
  {
    hide IsWhitespace;
    if s != "" && IsWhitespace(s[0]) {
      TrimStartWithin(s[1..], c);
    }
  }

  lemma TrimWithin(s: string, c: char)
    ensures c in Trim(s) ==> c in s
  {
    TrimStartWithin(s, c);
    TrimEndKeepsFirst(TrimStart(s));
    if c in Trim(s) {
      var k :| 0 <= k < |Trim(s)| && Trim(s)[k] == c;
      assert TrimStart(s)[k] == c;
    }
  }

  /** A text that neither starts nor ends with white space is its own trimming. */
  lemma TrimNothing(s: string)
    requires s != "" && !IsWhitespace(s[0]) && !IsWhitespace(s[|s| - 1])
    ensures Trim(s) == s
  {
  }

  lemma {:induction false} TrimOneMore(s: string, c: char)
    requires IsWhitespace(c)
    ensures TrimEnd(s + [c]) == TrimEnd(s) && Trim(s + [c]) == Trim(s)
  {
    hide IsWhitespace;
    assert (s + [c])[..|s|] == s;
    if s == "" {
      assert ("" + [c])[1..] == "";
    } else if IsWhitespace(s[0]) {
      assert (s + [c])[1..] == s[1..] + [c];
      TrimOneMore(s[1..], c);
    }
  }

  lemma {:induction false} TrimEndTwice(s: string)
    ensures TrimEnd(TrimEnd(s)) == TrimEnd(s)
    ensures Trim(TrimEnd(s)) == Trim(s)
  {
    hide IsWhitespace;
    if s != "" && IsWhitespace(s[|s| - 1]) {
      var n := |s| - 1;
      assert s == s[..n] + [s[n]];
      TrimOneMore(s[..n], s[n]);
      TrimEndTwice(s[..n]);
    }
  }

  lemma StripIsTail(line: string)
    ensures TrimEnd(StripCarriageReturn(line)) == TrimEnd(line) && Trim(StripCarriageReturn(line)) == Trim(line)
  {
    if line != "" && line[|line| - 1] == '\r' {
      assert line == line[..|line| - 1] + ['\r'];
      TrimOneMore(line[..|line| - 1], '\r');
    }
  }

  // ---- lines ----

  /** The text cut at every newline. */
  function Cut(s: string): (r: seq<string>)
    ensures r != []
  {
    var i := IndexOf(s, '\n');
    if i == |s| then [s] else [s[..i]] + Cut(s[i + 1..])
  }

  function StripAll(lines: seq<string>): (r: seq<string>)
    ensures |r| == |lines|
  {
    if lines == [] then [] else [StripCarriageReturn(lines[0])] + StripAll(lines[1..])
  }

  lemma LinesStep(head: string, rest: string)
    requires '\n' !in head
    ensures Lines(head + "\n" + rest) == [StripCarriageReturn(head)] + Lines(rest)
  {
    hide IndexOf, StripCarriageReturn;
    var s := head + "\n" + rest;
    assert s[..|head|] == head && s[|head| + 1..] == rest;
    IndexOfAt(s, '\n', |head|);
  }

  lemma StripStep(head: string, rest: seq<string>)
    ensures StripAll([head] + rest) == [StripCarriageReturn(head)] + StripAll(rest)
  {
    assert ([head] + rest)[1..] == rest;
  }

  /** What stands before a newline is read as its pieces, each without one carriage return. */
  lemma {:induction false} LinesCut(s: string, rest: string)
    ensures Lines(s + "\n" + rest) == StripAll(Cut(s)) + Lines(rest)
    decreases |s|
  {
    hide IndexOf, StripCarriageReturn, Lines, StripAll;
    var i := IndexOf(s, '\n');
    if i == |s| {
      assert s[..i] == s;
      LinesStep(s, rest);
      StripStep(s, []);
      assert [s] + [] == [s] && StripAll([]) == [];
    } else {
      var head, more := s[..i], s[i + 1..];
      LinesCut(more, rest);
      LinesStep(head, more + "\n" + rest);
      assert s + "\n" + rest == head + "\n" + (more + "\n" + rest);
      StripStep(head, Cut(more));
    }
  }

  predicate NoNewlines(lines: seq<string>) {
    lines == [] || ('\n' !in lines[0] && NoNewlines(lines[1..]))
  }

  lemma CutStep(head: string, rest: string)
    requires '\n' !in head
    ensures Cut(head) == [head] && Cut(head + "\n" + rest) == [head] + Cut(rest)
  {
    hide IndexOf;
    var s := head + "\n" + rest;
    assert head[..|head|] == head && s[..|head|] == head && s[|head| + 1..] == rest;
    IndexOfAt(head, '\n', |head|);
    IndexOfAt(s, '\n', |head|);
  }

  lemma {:induction false} CutJoin(lines: seq<string>)
    requires lines != [] && NoNewlines(lines)
    ensures Cut(Join(lines)) == lines
  {
    hide Cut;
    if |lines| == 1 {
      CutStep(lines[0], "");
    } else {
      CutStep(lines[0], Join(lines[1..]));
      CutJoin(lines[1..]);
    }
  }

  lemma {:induction false} JoinCut(s: string)
    ensures Join(Cut(s)) == s
    decreases |s|
  {
    hide IndexOf, Cut, Join;
    var i := IndexOf(s, '\n');
    var head := s[..i];
    if i < |s| {
      var rest := s[i + 1..];
      JoinCut(rest);
      CutStep(head, rest);
      JoinFirst(head, Cut(rest));
      assert s == head + "\n" + rest;
    } else {
      CutStep(head, "");
      JoinOne(head);
      assert s == head;
    }
  }

  lemma JoinOne(s: string)
    ensures Join([s]) == s
  {
  }

  lemma JoinFirst(head: string, rest: seq<string>)
    requires rest != []
    ensures Join([head] + rest) == head + "\n" + Join(rest)
  {
  }

  lemma {:induction false} LinesHaveNoNewline(text: string)
    ensures NoNewlines(Lines(text))
    decreases |text|
  {
    hide IndexOf, Lines, NoNewlines;
    var i := IndexOf(text, '\n');
    var head := text[..i];
    OneLine(head);
    if i < |text| {
      var rest := text[i + 1..];
      LinesHaveNoNewline(rest);
      LinesStep(head, rest);
      NoNewlinesMore(StripCarriageReturn(head), Lines(rest));
      assert text == head + "\n" + rest;
    } else {
      assert head == text;
    }
  }

  lemma OneLine(s: string)
    requires '\n' !in s
    ensures Lines(s) == (if s == "" then [] else [s]) && NoNewlines(Lines(s))
  {
    IndexOfNone(s, '\n');
  }

  lemma IndexOfNone(s: string, c: char)
    requires c !in s
    ensures IndexOf(s, c) == |s|
  {
    assert s[..|s|] == s;
    IndexOfAt(s, c, |s|);
  }

  lemma NoNewlinesMore(head: string, rest: seq<string>)
    requires '\n' !in head && NoNewlines(rest)
    ensures NoNewlines([head] + rest)
  {
    assert ([head] + rest)[1..] == rest;
  }

  // ---- trimming the end of a text, line by line ----

  /** `short` is `long` without some white space at its end, possibly whole lines of it. */
  ghost predicate CutBack(short: seq<string>, long: seq<string>) {
    && 0 < |short| <= |long|
    && (forall k :: 0 <= k < |short| - 1 ==> short[k] == long[k])
    && (forall k :: 0 <= k < |short| ==> TrimEnd(short[k]) == TrimEnd(long[k]) && Trim(short[k]) == Trim(long[k]))
    && (forall k :: |short| <= k < |long| ==> Trim(long[k]) == "")
  }

  lemma CutBackLonger(head: string, short: seq<string>, long: seq<string>)
    requires CutBack(short, long)
    ensures CutBack([head] + short, [head] + long)
  {
    hide Trim, TrimEnd;
    var a, b := [head] + short, [head] + long;
    forall k | 0 <= k < |a| ensures TrimEnd(a[k]) == TrimEnd(b[k]) && Trim(a[k]) == Trim(b[k]) {
      if k > 0 { assert a[k] == short[k - 1] && b[k] == long[k - 1]; }
    }
    forall k | |a| <= k < |b| ensures Trim(b[k]) == "" {
      assert b[k] == long[k - 1];
    }
  }

  /** One more white space at the end lengthens the last line or adds an empty one. */
  lemma {:induction false} CutOneMore(s: string, c: char)
    requires IsWhitespace(c)
    ensures CutBack(Cut(s), Cut(s + [c]))
    decreases |s|
  {
    hide Trim, TrimEnd, IsWhitespace, IndexOf, Cut, CutBack;
    var i := IndexOf(s, '\n');
    if i < |s| {
      var head, tail := s[..i], s[i + 1..];
      assert s == head + "\n" + tail && s + [c] == head + "\n" + (tail + [c]);
      CutStep(head, tail);
      CutStep(head, tail + [c]);
      CutOneMore(tail, c);
      CutBackLonger(head, Cut(tail), Cut(tail + [c]));
    } else {
      assert s[..i] == s;
      CutStep(s, "");
      if c == '\n' {
        assert s + [c] == s + "\n" + "";
        CutStep("", "");
      } else {
        CutStep(s + [c], "");
      }
      PieceOneMore(s, c);
    }
  }

  lemma PieceOneMore(s: string, c: char)
    requires IsWhitespace(c)
    ensures CutBack([s], [s + [c]]) && CutBack([s], [s] + [""])
  {
    hide Trim, TrimEnd, IsWhitespace;
    TrimOneMore(s, c);
    EmptyTrims();
  }

  lemma EmptyTrims()
    ensures Trim("") == "" && TrimEnd("") == ""
  {
  }

  /** Trimming the end of a text only shortens its last lines by white space. */
  lemma {:induction false} CutTrimmed(s: string)
    ensures CutBack(Cut(TrimEnd(s)), Cut(s))
  {
    hide Trim, Cut, IsWhitespace;
    if s != "" && IsWhitespace(s[|s| - 1]) {
      var n := |s| - 1;
      assert s == s[..n] + [s[n]];
      CutTrimmed(s[..n]);
      CutOneMore(s[..n], s[n]);
    }
  }

  // ---- the lines of what is written ----

  /** No white space, quote, equals sign or bracket. */
  predicate IsToken(s: string) {
    forall c :: c in s ==> !IsWhitespace(c) && c !in {'"', '=', '['}
  }

  predicate PlainPin(pin: EncoderPin) {
    && IsToken(pin.source) && IsToken(pin.lock) && IsToken(pin.toolchain) && IsToken(pin.rustc) && IsToken(pin.cargo)
    && forall k :: 0 <= k < |pin.toolchains| ==>
                     pin.toolchains[k].0 != "" && IsToken(pin.toolchains[k].0) && IsToken(pin.toolchains[k].1)
  }

  /** A line that is read back as it is written and is no header. */
  predicate PlainLine(line: string) {
    '[' !in line && '\n' !in line && '\r' !in line
  }

  lemma PlainField(name: string, value: string)
    requires PlainLine(name) && IsToken(value)
    ensures PlainLine(Field(name, value))
  {
  }

  lemma {:induction false} EntryAt(toolchains: seq<(string, string)>, k: nat)
    requires k < |toolchains|
    ensures |Entries(toolchains)| == |toolchains|
    ensures Entries(toolchains)[k] == Field(toolchains[k].0, toolchains[k].1)
  {
    if k > 0 {
      EntryAt(toolchains[1..], k - 1);
    } else if |toolchains| > 1 {
      EntryAt(toolchains[1..], 0);
    }
  }

  lemma {:induction false} EntriesLength(toolchains: seq<(string, string)>)
    ensures |Entries(toolchains)| == |toolchains|
  {
    if toolchains != [] { EntriesLength(toolchains[1..]); }
  }

  lemma FieldsArePlain(pin: EncoderPin, k: nat)
    requires PlainPin(pin) && k < 6
    ensures PlainLine(Fields(pin)[k])
  {
    hide IsToken, Field, PlainLine;
    NamesArePlain();
    OtherNamesArePlain();
    match k {
      case 0 => PlainField("source_sha256", pin.source);
      case 1 => PlainField("lock_sha256", pin.lock);
      case 2 => PlainField("toolchain", pin.toolchain);
      case 3 => PlainField("rustc_commit", pin.rustc);
      case 4 => PlainField("cargo_commit", pin.cargo);
      case _ =>
    }
  }

  lemma NamesArePlain()
    ensures PlainLine("source_sha256") && PlainLine("lock_sha256") && PlainLine("toolchain")
  {
  }

  lemma OtherNamesArePlain()
    ensures PlainLine("rustc_commit") && PlainLine("cargo_commit") && PlainLine("")
  {
  }

  lemma EntriesArePlain(pin: EncoderPin, k: nat)
    requires PlainPin(pin) && k < |Entries(pin.toolchains)|
    ensures PlainLine(Entries(pin.toolchains)[k])
  {
    hide IsToken, Field, PlainLine;
    EntriesLength(pin.toolchains);
    EntryAt(pin.toolchains, k);
    PlainToken(pin.toolchains[k].0);
    PlainField(pin.toolchains[k].0, pin.toolchains[k].1);
  }

  /** Every line of the table but its two headers is plain. */
  lemma TableLineIsPlain(pin: EncoderPin, k: nat)
    requires PlainPin(pin) && k < |TableLines(pin)| && k != 0 && k != 7
    ensures PlainLine(TableLines(pin)[k])
  {
    hide PlainPin, Fields, Entries, PlainLine;
    if k < 7 {
      FieldsArePlain(pin, k - 1);
    } else {
      EntriesArePlain(pin, k - 8);
    }
  }

  lemma PlainToken(s: string)
    requires IsToken(s)
    ensures PlainLine(s)
  {
    assert IsWhitespace('\n') && IsWhitespace('\r');
  }

  predicate EndsInReturn(line: string) {
    line != "" && line[|line| - 1] == '\r'
  }

  lemma {:induction false} StripNothing(lines: seq<string>)
    requires forall k :: 0 <= k < |lines| ==> !EndsInReturn(lines[k])
    ensures StripAll(lines) == lines
  {
    if lines != [] { StripNothing(lines[1..]); }
  }

  lemma {:induction false} NoNewlinesFrom(lines: seq<string>, i: nat)
    requires i <= |lines| && forall k :: 0 <= k < |lines| ==> '\n' !in lines[k]
    ensures NoNewlines(lines[i..])
    decreases |lines| - i
  {
    if i < |lines| {
      NoNewlinesFrom(lines, i + 1);
      assert lines[i..][1..] == lines[i + 1..];
    }
  }

  lemma HeadersAreClean()
    ensures '\n' !in PIN_TABLE && '\n' !in DIGEST_TABLE && !EndsInReturn(PIN_TABLE) && !EndsInReturn(DIGEST_TABLE)
    ensures Trim(PIN_TABLE) == PIN_TABLE && Trim(DIGEST_TABLE) == DIGEST_TABLE
    ensures IsHeader(PIN_TABLE) && IsHeader(DIGEST_TABLE) && PIN_TABLE != DIGEST_TABLE
    ensures "[" <= PIN_TABLE && "[" <= DIGEST_TABLE
  {
    TrimNothing(PIN_TABLE);
    TrimNothing(DIGEST_TABLE);
  }

  ghost predicate Clean(lines: seq<string>) {
    lines != [] && forall k :: 0 <= k < |lines| ==> '\n' !in lines[k] && !EndsInReturn(lines[k])
  }

  /** Clean lines below an empty one are read back as they are. */
  lemma LinesBelowEmpty(lines: seq<string>)
    requires Clean(lines)
    ensures Lines("\n" + (Join(lines) + "\n")) == [""] + lines
  {
    hide Join, Cut, StripAll, Lines;
    var text := Join(lines) + "\n";
    StripNothing(lines);
    NoNewlinesFrom(lines, 0);
    assert lines[0..] == lines;
    CutJoin(lines);
    assert text == Join(lines) + "\n" + "" && "\n" + text == "" + "\n" + text;
    LinesCut(Join(lines), "");
    LinesCut("", text);
    OneEmptyLine();
  }

  lemma TableIsClean(pin: EncoderPin)
    requires PlainPin(pin)
    ensures Clean(TableLines(pin))
  {
    hide PlainPin, Trim, IsHeader, Fields, Entries;
    var lines := TableLines(pin);
    HeadersAreClean();
    forall k | 0 <= k < |lines| ensures '\n' !in lines[k] && !EndsInReturn(lines[k]) {
      if k != 0 && k != 7 { TableLineIsPlain(pin, k); }
    }
  }

  /** The table is read back line by line as it is written. */
  lemma LinesOfTable(pin: EncoderPin)
    requires PlainPin(pin)
    ensures Lines("\n" + Table(pin)) == [""] + TableLines(pin)
  {
    hide PlainPin, Clean, TableLines, Join, Lines;
    TableIsClean(pin);
    LinesBelowEmpty(TableLines(pin));
  }

  lemma OneEmptyLine()
    ensures Lines("") == [] && StripAll(Cut("")) == [""]
  {
    assert [""][1..] == [];
  }

  /** The lines before the table in what is written. */
  function Front(manifest: string): seq<string> {
    StripAll(Cut(Kept(manifest))) + [""]
  }

  lemma LinesOfWritten(pin: EncoderPin, manifest: string)
    requires PlainPin(pin)
    ensures Lines(Written(pin, manifest)) == Front(manifest) + TableLines(pin)
  {
    hide PlainPin, TableLines, Kept, Lines, Cut, StripAll;
    LinesOfTable(pin);
    LinesCut(Kept(manifest), "\n" + Table(pin));
  }

  lemma {:induction false} OutsideHasNoPinHeader(lines: seq<string>, n: nat)
    requires n <= |lines|
    ensures forall k :: 0 <= k < |Outside(lines, n)| ==> !IsPinHeader(Outside(lines, n)[k])
  {
    hide Trim;
    HeadersAreClean();
    if n > 0 {
      OutsideHasNoPinHeader(lines, n - 1);
      assert IsPinHeader(lines[n - 1]) ==> IsHeader(lines[n - 1]);
    }
  }

  lemma {:induction false} OutsideWithin(lines: seq<string>, n: nat)
    requires n <= |lines| && forall k :: 0 <= k < |lines| ==> '\n' !in lines[k]
    ensures forall k :: 0 <= k < |Outside(lines, n)| ==> '\n' !in Outside(lines, n)[k]
  {
    hide InPinTable;
    if n > 0 { OutsideWithin(lines, n - 1); }
  }

  lemma {:induction false} NoNewlineAt(lines: seq<string>, k: nat)
    requires NoNewlines(lines) && k < |lines|
    ensures '\n' !in lines[k]
  {
    if k > 0 { NoNewlineAt(lines[1..], k - 1); }
  }

  /** The lines kept by a run of the writer. */
  function OutsideLines(manifest: string): seq<string> {
    Outside(Lines(manifest), |Lines(manifest)|)
  }

  /** The kept text holds the lines outside the tables, in order, up to white space at its end. */
  lemma KeptLines(manifest: string)
    ensures CutBack(Cut(Kept(manifest)), if OutsideLines(manifest) == [] then [""] else OutsideLines(manifest))
  {
    hide Trim, TrimEnd, Lines, CutBack, InPinTable;
    var lines, outside := Lines(manifest), OutsideLines(manifest);
    LinesHaveNoNewline(manifest);
    forall k | 0 <= k < |lines| ensures '\n' !in lines[k] {
      NoNewlineAt(lines, k);
    }
    OutsideWithin(lines, |lines|);
    NoNewlinesFrom(outside, 0);
    assert outside[0..] == outside;
    CutTrimmed(Join(outside));
    if outside != [] {
      CutJoin(outside);
    }
  }

  lemma {:induction false} StripAt(lines: seq<string>, k: nat)
    requires k < |lines|
    ensures StripAll(lines)[k] == StripCarriageReturn(lines[k])
  {
    if k > 0 { StripAt(lines[1..], k - 1); }
  }

  lemma FrontHasNoPinHeader(manifest: string, k: nat)
    requires k < |Front(manifest)|
    ensures !IsPinHeader(Front(manifest)[k])
  {
    hide Trim, TrimEnd, Lines, InPinTable, Outside, Kept, StripAll;
    EmptyTrims();
    if k < |Front(manifest)| - 1 {
      KeptLines(manifest);
      OutsideHasNoPinHeader(Lines(manifest), |Lines(manifest)|);
      StripAt(Cut(Kept(manifest)), k);
      StripIsTail(Cut(Kept(manifest))[k]);
    }
  }

  /** Every line outside the two tables is still there, in its place, up to trailing white space. */
  lemma OutsideLinesSurvive(pin: EncoderPin, manifest: string, k: nat)
    requires PlainPin(pin) && k < |OutsideLines(manifest)| && Trim(OutsideLines(manifest)[k]) != ""
    ensures k < |Lines(Written(pin, manifest))|
    ensures TrimEnd(Lines(Written(pin, manifest))[k]) == TrimEnd(OutsideLines(manifest)[k])
  {
    hide PlainPin, Trim, TrimEnd, Lines, OutsideLines, Kept, StripAll, TableLines, Written;
    KeptLines(manifest);
    LinesOfWritten(pin, manifest);
    StripAt(Cut(Kept(manifest)), k);
    StripIsTail(Cut(Kept(manifest))[k]);
  }

  /** After lines without a pin header come the tables, all of whose lines are dropped. */
  lemma {:induction false} OutsideFront(pin: EncoderPin, front: seq<string>, n: nat)
    requires PlainPin(pin) && n <= |front + TableLines(pin)|
    requires forall k :: 0 <= k < |front| ==> !IsPinHeader(front[k])
    ensures Outside(front + TableLines(pin), n) == front[..if n < |front| then n else |front|]
    ensures 0 < n ==> (InPinTable(front + TableLines(pin), n - 1) <==> n > |front|)
  {
    hide PlainPin, TableLines, IsPinHeader, IsHeader;
    var lines := front + TableLines(pin);
    if n > 0 {
      OutsideFront(pin, front, n - 1);
      if n > |front| {
        TableLineStaysIn(pin, n - 1 - |front|);
        assert lines[n - 1] == TableLines(pin)[n - 1 - |front|];
        TableStarts(pin);
      }
    }
  }

  lemma TableStarts(pin: EncoderPin)
    ensures |TableLines(pin)| > 8 - 1 && TableLines(pin)[0] == PIN_TABLE && TableLines(pin)[7] == DIGEST_TABLE
    ensures IsHeader(PIN_TABLE) && IsPinHeader(PIN_TABLE)
  {
    HeadersAreClean();
  }

  lemma TableLineStaysIn(pin: EncoderPin, k: nat)
    requires PlainPin(pin) && k < |TableLines(pin)|
    ensures IsHeader(TableLines(pin)[k]) ==> IsPinHeader(TableLines(pin)[k])
  {
    hide PlainPin, Trim;
    HeadersAreClean();
    if k != 0 && k != 7 {
      hide TableLines;
      TableLineIsPlain(pin, k);
      PlainIsNoHeader(TableLines(pin)[k]);
    }
  }

  lemma PlainIsNoHeader(line: string)
    requires PlainLine(line)
    ensures !IsHeader(line) && Trim(line) != DIGEST_TABLE
  {
    HeadersAreClean();
    TrimWithin(line, '[');
    assert "["[0] == '[';
  }

  // ---- writing twice ----

  lemma {:induction false} JoinMore(lines: seq<string>)
    requires lines != []
    ensures Join(lines + [""]) == Join(lines) + "\n"
  {
    assert (lines + [""])[1..] == lines[1..] + [""];
    if |lines| > 1 {
      JoinMore(lines[1..]);
    }
  }

  lemma {:induction false} StripShortens(lines: seq<string>)
    ensures |Join(StripAll(lines))| <= |Join(lines)|
    ensures |Join(StripAll(lines))| == |Join(lines)| <==> forall k :: 0 <= k < |lines| ==> !EndsInReturn(lines[k])
  {
    if lines != [] {
      StripShortens(lines[1..]);
      var stripped := StripAll(lines);
      assert stripped[1..] == StripAll(lines[1..]);
      assert (forall k :: 0 <= k < |lines| ==> !EndsInReturn(lines[k])) <==>
             !EndsInReturn(lines[0]) && forall k :: 0 <= k < |lines[1..]| ==> !EndsInReturn(lines[1..][k]) by {
        assert forall k :: 1 <= k < |lines| ==> lines[k] == lines[1..][k - 1];
      }
    }
  }

  /** What a second run keeps: the same lines, each without one carriage return. */
  lemma KeptAgain(pin: EncoderPin, manifest: string)
    requires PlainPin(pin)
    ensures Kept(Written(pin, manifest)) == TrimEnd(Join(StripAll(Cut(Kept(manifest)))))
  {
    hide PlainPin, TrimEnd, Lines, InPinTable, TableLines, Written, IsPinHeader, StripAll, Cut, Join;
    var front := Front(manifest);
    var stripped := StripAll(Cut(Kept(manifest)));
    LinesOfWritten(pin, manifest);
    forall k | 0 <= k < |front| ensures !IsPinHeader(front[k]) {
      FrontHasNoPinHeader(manifest, k);
    }
    OutsideFront(pin, front, |front + TableLines(pin)|);
    assert front[..|front|] == front;
    JoinMore(stripped);
    TrimOneMore(Join(stripped), '\n');
  }

  /** No line of the kept text ends in a carriage return. */
  predicate NoReturnsKept(manifest: string) {
    forall k :: 0 <= k < |Cut(Kept(manifest))| ==> !EndsInReturn(Cut(Kept(manifest))[k])
  }

  /** Outside the tables, no line that is followed by more text ends in a carriage return besides that of its line end. */
  predicate NoDoubleReturns(manifest: string) {
    var outside := OutsideLines(manifest);
    forall j, k :: 0 <= j < k < |outside| && EndsInReturn(outside[j]) ==> Trim(outside[k]) == ""
  }

  /** The last piece of a text that does not end in white space has text in it, and ends as the text does. */
  lemma {:induction false} LastCut(s: string)
    requires s != "" && !IsWhitespace(s[|s| - 1])
    ensures var last := Cut(s)[|Cut(s)| - 1]; last != "" && last[|last| - 1] == s[|s| - 1]
    decreases |s|
  {
    hide IndexOf, Cut, IsWhitespace;
    var i := IndexOf(s, '\n');
    var head := s[..i];
    if i < |s| {
      var rest := s[i + 1..];
      NewlineIsWhitespace();
      LastCut(rest);
      CutStep(head, rest);
      assert s == head + "\n" + rest;
    } else {
      CutStep(head, "");
      assert head == s;
    }
  }

  lemma NewlineIsWhitespace()
    ensures IsWhitespace('\n')
  {
  }

  lemma {:induction false} TrimEndEnds(s: string)
    ensures TrimEnd(s) != "" ==> !IsWhitespace(TrimEnd(s)[|TrimEnd(s)| - 1])
  {
    hide IsWhitespace;
    if s != "" && IsWhitespace(s[|s| - 1]) {
      TrimEndEnds(s[..|s| - 1]);
    }
  }

  lemma TextIsNotBlank(s: string)
    requires s != "" && !IsWhitespace(s[|s| - 1])
    ensures Trim(s) != "" && !EndsInReturn(s)
  {
    TrimKeepsLast(s);
  }

  lemma {:induction false} TrimKeepsLast(s: string)
    requires s != "" && !IsWhitespace(s[|s| - 1])
    ensures TrimStart(s) != "" && TrimStart(s)[|TrimStart(s)| - 1] == s[|s| - 1]
  {
    hide IsWhitespace;
    if IsWhitespace(s[0]) {
      TrimKeepsLast(s[1..]);
    }
  }

  /** What the kept text's lines look like can be told from the manifest's lines. */
  lemma ReturnsKeptExactly(manifest: string)
    ensures NoReturnsKept(manifest) <==> NoDoubleReturns(manifest)
  {
    hide Trim, TrimEnd, Lines, Outside, Cut, Join, EndsInReturn, IsWhitespace;
    var outside, kept := OutsideLines(manifest), Kept(manifest);
    var cut := Cut(kept);
    KeptLines(manifest);
    TrimEndEnds(Join(outside));
    if kept == "" {
      EmptyCut();
    } else {
      LastCut(kept);
      TextIsNotBlank(cut[|cut| - 1]);
    }
  }

  lemma EmptyCut()
    ensures Cut("") == [""] && !EndsInReturn("")
  {
  }

  /** Writing a second time changes nothing exactly when no line outside the tables has two carriage returns before its end and text below it. */
  lemma WritingTwice(pin: EncoderPin, manifest: string)
    requires PlainPin(pin)
    ensures Written(pin, Written(pin, manifest)) == Written(pin, manifest) <==> NoDoubleReturns(manifest)
  {
    ReturnsKeptExactly(manifest);
    KeptTwice(pin, manifest);
  }

  lemma KeptTwice(pin: EncoderPin, manifest: string)
    requires PlainPin(pin)
    ensures Written(pin, Written(pin, manifest)) == Written(pin, manifest) <==> NoReturnsKept(manifest)
  {
    hide PlainPin, TrimEnd, Table, Cut, Join, StripAll, EndsInReturn;
    var kept := Kept(manifest);
    var cut := Cut(kept);
    KeptAgain(pin, manifest);
    StripShortens(cut);
    JoinCut(kept);
    TrimEndTwice(Join(OutsideLines(manifest)));
    TrimEndKeepsFirst(Join(StripAll(cut)));
    var again := Kept(Written(pin, manifest));
    var tail := "\n" + ("\n" + Table(pin));
    assert Written(pin, manifest) == kept + tail && Written(pin, Written(pin, manifest)) == again + tail;
    SamePrefix(again, kept, tail);
    hide Kept, Written;
    if NoReturnsKept(manifest) {
      StripNothing(cut);
    }
  }

  lemma SamePrefix(a: string, b: string, tail: string)
    ensures a + tail == b + tail <==> a == b
  {
    if a + tail == b + tail {
      assert |a| == |b|;
      assert (a + tail)[..|a|] == a && (b + tail)[..|b|] == b;
    }
  }

  // ---- reading back ----

  /** The digest listed first for a host. */
  function Lookup(toolchains: seq<(string, string)>, host: string): Option<string> {
    if toolchains == [] then None
    else if toolchains[0].0 == host then Some(toolchains[0].1)
    else Lookup(toolchains[1..], host)
  }

  lemma UnquotedToken(s: string)
    requires IsToken(s)
    ensures TrimMatchesEnd(TrimMatchesStart("\"" + s + "\"", '"'), '"') == s
    ensures s != "" ==> Unquoted(s + " ") == s
  {
    var quoted := "\"" + s + "\"";
    assert quoted[1..] == s + "\"";
    if s == "" {
      assert TrimMatchesStart(quoted[1..], '"') == "" by { assert quoted[1..][1..] == ""; }
    } else {
      assert s[0] in s && s[|s| - 1] in s;
      assert (s + "\"")[..|s|] == s;
      assert TrimMatchesStart(quoted, '"') == s + "\"";
      TrimOneMore(s, ' ');
      TrimNothing(s);
      assert s + [' '] == s + " ";
    }
  }

  lemma UnquotedValue(s: string)
    requires IsToken(s)
    ensures Unquoted(" \"" + s + "\"") == s
  {
    var quoted := "\"" + s + "\"";
    assert (" \"" + s + "\"")[1..] == quoted;
    TrimNothing(quoted);
    UnquotedToken(s);
  }

  lemma ValueOfEntry(name: string, digest: string, host: string)
    requires name != "" && IsToken(name) && IsToken(digest)
    ensures ValueFor(Field(name, digest), host) == if name == host then Some(digest) else None
  {
    var line := Field(name, digest);
    assert name[0] in name;
    assert line[0] == name[0] && line[|line| - 1] == '"';
    TrimNothing(line);
    var i := |name| + 1;
    assert line[..i] == name + " " && line[i + 1..] == " \"" + digest + "\"";
    assert '=' !in name;
    hide IsToken, Unquoted, Trim;
    IndexOfAt(line, '=', i);
    UnquotedToken(name);
    UnquotedValue(digest);
  }

  lemma {:induction false} ReadSkips(lines: seq<string>, host: string, k: nat, m: nat)
    requires k <= m <= |lines| && forall j :: k <= j < m ==> Trim(lines[j]) != DIGEST_TABLE
    ensures ReadFrom(lines, host, k, false) == ReadFrom(lines, host, m, false)
    decreases m - k
  {
    hide Trim, IsHeader, ValueFor;
    if k < m { ReadSkips(lines, host, k + 1, m); }
  }

  lemma {:induction false} ReadEntries(lines: seq<string>, host: string, k: nat, pin: EncoderPin, e: nat)
    requires PlainPin(pin) && e <= |pin.toolchains| && k + |pin.toolchains| - e == |lines|
    requires forall j :: e <= j < |pin.toolchains| ==> lines[k + j - e] == Field(pin.toolchains[j].0, pin.toolchains[j].1)
    ensures ReadFrom(lines, host, k, true) == Lookup(pin.toolchains[e..], host)
    decreases |pin.toolchains| - e
  {
    hide IsToken, IsHeader, ValueFor, Field, PlainLine;
    if e < |pin.toolchains| {
      var entry := pin.toolchains[e];
      assert lines[k] == Field(entry.0, entry.1);
      PlainToken(entry.0);
      PlainField(entry.0, entry.1);
      PlainIsNoHeader(lines[k]);
      ValueOfEntry(entry.0, entry.1, host);
      ReadEntries(lines, host, k + 1, pin, e + 1);
      assert pin.toolchains[e..][1..] == pin.toolchains[e + 1..];
    }
  }

  lemma TableNotDigest(pin: EncoderPin, k: nat)
    requires PlainPin(pin) && k < 7
    ensures Trim(TableLines(pin)[k]) != DIGEST_TABLE
  {
    hide PlainPin, Trim;
    HeadersAreClean();
    if k > 0 {
      TableLineIsPlain(pin, k);
      PlainIsNoHeader(TableLines(pin)[k]);
    }
  }

  lemma {:induction false} FirstValueFrom(lines: seq<string>, host: string, digest: Option<string>, k: nat)
    requires IsFirstValue(lines, host, digest) && k <= |lines|
    requires forall j :: 0 <= j < k ==> !Gives(lines, host, j)
    ensures digest == ReadFrom(lines, host, k, k > 0 && InDigestTable(lines, k - 1))
    decreases |lines| - k
  {
    hide IsHeader, ValueFor;
    if k < |lines| && !Gives(lines, host, k) {
      FirstValueFrom(lines, host, digest, k + 1);
    }
  }

  /** Whatever the manifest held before, the reader finds the pinned digests and no others. */
  lemma ReadsWhatIsWritten(pin: EncoderPin, manifest: string, host: string, digest: Option<string>)
    requires PlainPin(pin) && IsFirstValue(Lines(Written(pin, manifest)), host, digest)
    ensures digest == Lookup(pin.toolchains, host)
  {
    FirstValueFrom(Lines(Written(pin, manifest)), host, digest, 0);
    ReadsPinned(pin, manifest, host);
  }

  lemma ReadsPinned(pin: EncoderPin, manifest: string, host: string)
    requires PlainPin(pin)
    ensures ReadFrom(Lines(Written(pin, manifest)), host, 0, false) == Lookup(pin.toolchains, host)
  {
    hide PlainPin, Trim, IsHeader, Lines, Written, Front, Field, Entries;
    var front, table := Front(manifest), TableLines(pin);
    var lines := front + table;
    LinesOfWritten(pin, manifest);
    HeadersAreClean();
    var d := |front| + 7;
    forall j | 0 <= j < d ensures Trim(lines[j]) != DIGEST_TABLE {
      if j < |front| {
        FrontHasNoPinHeader(manifest, j);
      } else {
        TableNotDigest(pin, j - |front|);
      }
    }
    ReadSkips(lines, host, 0, d);
    assert lines[d] == DIGEST_TABLE;
    EntriesLength(pin.toolchains);
    forall j | 0 <= j < |pin.toolchains| ensures lines[d + 1 + j] == Field(pin.toolchains[j].0, pin.toolchains[j].1) {
      EntryAt(pin.toolchains, j);
    }
    ReadEntries(lines, host, d + 1, pin, 0);
    assert pin.toolchains[0..] == pin.toolchains;
  }

  /** With one digest for each host, that is the pinned digest for each pinned host and none for any other. */
  lemma {:induction false} LookupExact(toolchains: seq<(string, string)>, host: string)
    ensures Lookup(toolchains, host).None? <==> forall k :: 0 <= k < |toolchains| ==> toolchains[k].0 != host
    ensures (forall j, k :: 0 <= j < k < |toolchains| ==> toolchains[j].0 != toolchains[k].0) ==>
              forall k :: 0 <= k < |toolchains| && toolchains[k].0 == host ==> Lookup(toolchains, host) == Some(toolchains[k].1)
  {
    if toolchains != [] {
      LookupExact(toolchains[1..], host);
      assert forall k :: 1 <= k < |toolchains| ==> toolchains[k] == toolchains[1..][k - 1];
    }
  }

  /** Two carriage returns before a newline are written as one, and then as none. */
  lemma WritingTwiceMayDiffer(pin: EncoderPin)
    requires PlainPin(pin)
    ensures Written(pin, Written(pin, "a\r\r\nb\n")) != Written(pin, "a\r\r\nb\n")
  {
    hide PlainPin, Written, Lines, Outside, IsHeader, PlainLine, Trim;
    var manifest := "a\r\r\nb\n";
    WritingTwice(pin, manifest);
    LinesExample();
    AbArePlain();
    PlainIsNoHeader("a");
    PlainIsNoHeader("b");
    assert "a" + "\r" == "a\r";
    ReturnIsTrimmed("a");
    OutsideTwo("a\r", "b");
    var outside := OutsideLines(manifest);
    assert outside == ["a\r", "b"];
    assert EndsInReturn(outside[0]) && Trim(outside[1]) != "";
  }

  lemma AbArePlain()
    ensures PlainLine("a") && PlainLine("b") && Trim("b") == "b"
  {
    TrimNothing("b");
  }

  lemma ReturnIsTrimmed(line: string)
    ensures IsHeader(line + "\r") <==> IsHeader(line)
  {
    hide Trim;
    TrimOneMore(line, '\r');
    assert line + ['\r'] == line + "\r";
  }

  lemma OutsideTwo(a: string, b: string)
    requires !IsHeader(a) && !IsHeader(b)
    ensures Outside([a, b], 2) == [a, b]
  {
    hide IsHeader;
    assert !InPinTable([a, b], 0) && !InPinTable([a, b], 1);
    assert Outside([a, b], 0) == [] && Outside([a, b], 1) == [a];
  }

  lemma LinesExample()
    ensures Lines("a\r\r\nb\n") == ["a\r", "b"]
  {
    hide Lines, StripCarriageReturn;
    assert "a\r\r\nb\n" == "a\r\r" + "\n" + "b\n" && "b\n" == "b" + "\n" + "";
    LinesStep("a\r\r", "b\n");
    LinesStep("b", "");
    OneLine("");
    AbStripped();
  }

  lemma AbStripped()
    ensures StripCarriageReturn("a\r\r") == "a\r" && StripCarriageReturn("b") == "b"
  {
  }
}
