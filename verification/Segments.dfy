/** The names of repositories, as they are spelled inside renamed ids. */
module Segments {
  import opened Text

  predicate IsSegmentChar(c: char) {
    'a' <= c <= 'z' || '0' <= c <= '9' || c == '_' || c == '.'
  }

  /** Lower-cases letters and turns everything that is not a segment character into a dash. */
  function NormalizeChar(c: char): char {
    if 'A' <= c <= 'Z' then (c as int - 'A' as int + 'a' as int) as char
    else if IsSegmentChar(c) then c
    else '-'
  }

  /** Segment characters and single inner dashes. */
  ghost predicate IsSegment(s: string) {
    && s != "" && s[0] != '-' && s[|s| - 1] != '-'
    && (forall i :: 0 <= i < |s| ==> IsSegmentChar(s[i]) || s[i] == '-')
    && (forall i :: 0 <= i < |s| - 1 ==> s[i] != '-' || s[i + 1] != '-')
  }

  function Normalized(value: string): (r: string)
    ensures |r| == |value| && forall i :: 0 <= i < |value| ==> r[i] == NormalizeChar(value[i])
  {
    if value == "" then "" else Normalized(value[..|value| - 1]) + [NormalizeChar(value[|value| - 1])]
  }

  /** The maximal runs of characters other than dashes. */
  ghost function Words(s: string): seq<string>
    decreases |s|
  {
    var i := IndexOf(s, '-');
    (if i == 0 then [] else [s[..i]]) + (if i == |s| then [] else Words(s[i + 1..]))
  }

  ghost function Dashed(words: seq<string>): string {
    if words == [] then "" else if |words| == 1 then words[0] else words[0] + "-" + Dashed(words[1..])
  }

  ghost predicate IsWord(s: string) {
    s != "" && '-' !in s
  }

  ghost predicate IsSegmentWord(s: string) {
    s != "" && forall c :: c in s ==> IsSegmentChar(c)
  }

  /** The words of a name, or a stand-in if there are none. */
  ghost function SegmentWords(value: string): seq<string> {
    if Words(Normalized(value)) == [] then ["fragment"] else Words(Normalized(value))
  }

  /** The words before and after a first dash. */
  lemma WordsApart(a: string, b: string)
    requires '-' !in a
    ensures Words(a + "-" + b) == (if a == "" then [] else [a]) + Words(b)
    ensures Words(a) == if a == "" then [] else [a]
  {
    var s := a + "-" + b;
    assert s[..|a|] == a && s[|a| + 1..] == b && a[..|a|] == a;
    IndexOfAt(s, '-', |a|);
    IndexOfAt(a, '-', |a|);
  }

  lemma NoWords()
    ensures Dashed([]) == "" && Words("") == []
  {
  }

  lemma {:induction false} WordsDash(s: string)
    ensures Words(s + "-") == Words(s)
    decreases |s|
  {
    hide Words;
    var i := IndexOf(s, '-');
    var a := s[..i];
    if i < |s| {
      var b := s[i + 1..];
      WordsDash(b);
      WordsApart(a, b + "-");
      WordsApart(a, b);
      assert s == a + "-" + b && s + "-" == a + "-" + (b + "-");
    } else {
      WordsApart(a, "");
      NoWords();
      assert s == a && s + "-" == a + "-" + "";
    }
  }

  /** A character after a dash or at the start opens a word; any other belongs to the last one. */
  lemma {:induction false} WordsChar(s: string, c: char)
    requires c != '-'
    ensures s == "" || s[|s| - 1] == '-' ==> Words(s + [c]) == Words(s) + [[c]]
    ensures s != "" && s[|s| - 1] != '-' ==>
              && Words(s) != []
              && Words(s + [c]) == Words(s)[..|Words(s)| - 1] + [Words(s)[|Words(s)| - 1] + [c]]
    decreases |s|
  {
    hide Words;
    var i := IndexOf(s, '-');
    var a := s[..i];
    NoWords();
    if i < |s| {
      var b := s[i + 1..];
      WordsChar(b, c);
      WordsApart(a, b + [c]);
      WordsApart(a, b);
      assert s == a + "-" + b && s + [c] == a + "-" + (b + [c]);
      assert if b == "" then s[|s| - 1] == '-' else s[|s| - 1] == b[|b| - 1];
    } else {
      assert a == s;
      WordLonger(s, c);
    }
  }

  lemma WordLonger(s: string, c: char)
    requires '-' !in s && c != '-'
    ensures s == "" ==> Words(s + [c]) == Words(s) + [[c]]
    ensures s != "" ==> s[|s| - 1] != '-' && Words(s) == [s] && Words(s + [c]) == Words(s)[..0] + [s + [c]]
  {
    hide Words;
    WordsApart(s + [c], "");
    WordsApart(s, "");
    assert s == "" ==> s + [c] == [c];
    assert s != "" ==> s[|s| - 1] in s && [s][..0] == [];
  }

  lemma OneWord(s: string)
    ensures Dashed([s]) == s
    ensures IsSegment(s) ==> '/' !in s
  {
  }

  lemma {:induction false} DashedMore(words: seq<string>, w: string)
    ensures Dashed(words + [w]) == if words == [] then w else Dashed(words) + "-" + w
  {
    hide Dashed;
    OneWord(w);
    if |words| > 1 {
      var head, rest := words[0], words[1..];
      DashedMore(rest, w);
      DashedFirst(head, rest);
      DashedFirst(head, rest + [w]);
      assert words == [head] + rest && words + [w] == [head] + (rest + [w]);
      Regroup(head, Dashed(rest), w);
    } else if |words| == 1 {
      OneWord(words[0]);
      DashedFirst(words[0], [w]);
      assert words == [words[0]];
    } else {
      assert words + [w] == [w];
    }
  }

  lemma DashedFirst(head: string, rest: seq<string>)
    requires rest != []
    ensures Dashed([head] + rest) == head + "-" + Dashed(rest)
  {
    assert ([head] + rest)[1..] == rest;
  }

  lemma Regroup(a: string, b: string, c: string)
    ensures a + "-" + (b + "-" + c) == a + "-" + b + "-" + c
    ensures a + "-" + (b + c) == a + "-" + b + c
  {
  }

  lemma DashedLonger(words: seq<string>, c: char)
    requires words != []
    ensures Dashed(words[..|words| - 1] + [words[|words| - 1] + [c]]) == Dashed(words) + [c]
  {
    hide Dashed;
    var init, last := words[..|words| - 1], words[|words| - 1];
    assert words == init + [last];
    DashedMore(init, last);
    DashedMore(init, last + [c]);
    Regroup(Dashed(init), last, [c]);
  }

  lemma {:induction false} WordsAreWords(s: string)
    ensures forall w :: w in Words(s) ==> IsWord(w) && forall c :: c in w ==> c in s
    decreases |s|
  {
    var i := IndexOf(s, '-');
    if i < |s| {
      WordsAreWords(s[i + 1..]);
    }
  }

  /** Words put together with dashes are read off again. */
  lemma {:induction false} WordsOfDashed(words: seq<string>)
    requires forall k :: 0 <= k < |words| ==> IsWord(words[k])
    ensures Words(Dashed(words)) == words
  {
    hide Words;
    NoWords();
    if |words| == 1 {
      WordsApart(words[0], "");
    } else if |words| > 1 {
      WordsOfDashed(words[1..]);
      WordsApart(words[0], Dashed(words[1..]));
    }
  }

  lemma {:induction false} DashedIsSegment(words: seq<string>)
    requires words != [] && forall w :: w in words ==> IsSegmentWord(w)
    ensures IsSegment(Dashed(words))
  {
    hide IsSegmentChar;
    assert !IsSegmentChar('-') by { DashIsNone(); }
    assert IsSegmentWord(words[0]);
    assert forall i :: 0 <= i < |words[0]| ==> IsSegmentChar(words[0][i]) && words[0][i] != '-';
    if |words| > 1 {
      DashedIsSegment(words[1..]);
    }
  }

  lemma DashIsNone()
    ensures !IsSegmentChar('-')
  {
  }

  /** Two names have the same segment exactly when they have the same words. */
  lemma SegmentsAgree(v: string, w: string)
    ensures Dashed(SegmentWords(v)) == Dashed(SegmentWords(w)) <==> SegmentWords(v) == SegmentWords(w)
  {
    hide Words, Dashed;
    WordsAreWords(Normalized(v));
    WordsAreWords(Normalized(w));
    WordsOfDashed(SegmentWords(v));
    WordsOfDashed(SegmentWords(w));
  }

  lemma WordsAreSegments(value: string)
    ensures forall w :: w in Words(Normalized(value)) ==> IsSegmentWord(w)
  {
    hide Words;
    WordsAreWords(Normalized(value));
  }

  /** What has been written once the first characters of a name are read. */
  ghost predicate Written(out: string, lastDash: bool, read: string) {
    && (lastDash <==> read != "" && read[|read| - 1] == '-')
    && out == Dashed(Words(read)) + (if lastDash && Words(read) != [] then "-" else "")
    && (Words(read) != [] <==> Dashed(Words(read)) != "")
  }

  lemma NothingWritten()
    ensures Written("", false, "")
  {
    hide Words, Dashed;
    NoWords();
  }

  lemma AllWritten(out: string, lastDash: bool, read: string)
    requires Written(out, lastDash, read)
    ensures out == Dashed(Words(read)) || out == Dashed(Words(read)) + "-"
  {
    hide Words, Dashed;
  }

  lemma WriteNext(out: string, lastDash: bool, read: string, c: char)
    requires Written(out, lastDash, read)
    ensures Written(if c != '-' then out + [c] else if !lastDash && out != "" then out + "-" else out, c == '-', read + [c])
  {
    hide Words, Dashed;
    NoWords();
    if c == '-' {
      WordsDash(read);
    } else {
      WordsChar(read, c);
      if read == "" || lastDash {
        DashedMore(Words(read), [c]);
      } else {
        DashedLonger(Words(read), c);
      }
    }
  }

  lemma {:induction false} SegmentWritten(s: string, n: nat)
    requires IsSegment(s) && n <= |s|
    ensures Written(s[..n], n > 0 && s[n - 1] == '-', s[..n])
  {
    hide Words, Dashed;
    if n == 0 {
      NoWords();
    } else {
      SegmentWritten(s, n - 1);
      WriteNext(s[..n - 1], n > 1 && s[n - 2] == '-', s[..n - 1], s[n - 1]);
      assert s[..n] == s[..n - 1] + [s[n - 1]];
    }
  }

  /** A name is already its own segment exactly when it is one. */
  lemma SegmentIsItself(value: string)
    ensures IsSegment(Dashed(SegmentWords(value)))
    ensures Dashed(SegmentWords(value)) == value <==> IsSegment(value)
  {
    hide Words;
    WordsAreSegments(value);
    if Words(Normalized(value)) != [] {
      DashedIsSegment(SegmentWords(value));
    }
    if IsSegment(value) {
      SegmentWritten(value, |value|);
      assert Normalized(value) == value && value[..|value|] == value;
    }
  }

  lemma WholeWords(value: string)
    ensures var words := Words(Normalized(value));
            if words == [] then Dashed(words) == "" else Dashed(words) != "" && Dashed(words)[|Dashed(words)| - 1] != '-'
  {
    hide Words;
    NoWords();
    if Words(Normalized(value)) != [] {
      WordsAreSegments(value);
      DashedIsSegment(Words(Normalized(value)));
    }
  }

  method IdSegment(value: string) returns (out: string)
    ensures out == Dashed(SegmentWords(value))
    ensures IsSegment(out) && '/' !in out
    ensures out == value <==> IsSegment(value)
  {
    hide Words, Dashed, IsSegment, NormalizeChar, Written;
    out := "";
    var lastDash := false;
    ghost var text := Normalized(value);
    NothingWritten();
    for i := 0 to |value|
      invariant Written(out, lastDash, text[..i])
    {
      var normalized := NormalizeChar(value[i]);
      WriteNext(out, lastDash, text[..i], normalized);
      assert text[..i + 1] == text[..i] + [normalized];
      if normalized == '-' {
        if !lastDash && out != "" {
          out := out + "-";
        }
        lastDash := true;
      } else {
        out := out + [normalized];
        lastDash := false;
      }
    }
    assert text[..|value|] == text;
    ghost var dashed := Dashed(Words(text));
    WholeWords(value);
    AllWritten(out, lastDash, text);
    while out != "" && out[|out| - 1] == '-'
      invariant out == dashed || out == dashed + "-"
      decreases |out|
    {
      out := out[..|out| - 1];
    }
    if out == "" {
      out := "fragment";
    }
    SegmentIsItself(value);
    OneWord(out);
  }
}
