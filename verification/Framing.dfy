/** What a digest is taken over: each file's name, a NUL, its length and its bytes. */
module Framing {
  import opened Wrappers

  /** A byte is written as the character with its number. */
  type Bytes = string

  const NUL: char := '\0'
  const SLASH: char := '/'
  const U64_COUNT: nat := 0x1_0000_0000_0000_0000

  /** A path by its components. */
  type Path = seq<Bytes>

  datatype File = File(path: Path, content: Bytes)

  /** The digest of a stream; equal only for equal streams. */
  datatype Digest = Sha256(stream: Bytes)

  // ---- the stream ----

  /** `n` in `k` bytes, the least significant first. */
  function LittleEndian(n: nat, k: nat): (r: Bytes)
    ensures |r| == k
  {
    if k == 0 then [] else [(n % 256) as char] + LittleEndian(n / 256, k - 1)
  }

  /** The components, separated by slashes. */
  function Name(path: Path): Bytes {
    if path == [] then []
    else if |path| == 1 then path[0]
    else path[0] + [SLASH] + Name(path[1..])
  }

  function Frame(file: File): Bytes {
    Name(file.path) + [NUL] + LittleEndian(|file.content|, 8) + file.content
  }

  function Stream(files: seq<File>): Bytes {
    if files == [] then [] else Stream(files[..|files| - 1]) + Frame(files[|files| - 1])
  }

  /** A path as a file system has it: some components, none empty, without slashes and NULs. */
  predicate IsPath(path: Path) {
    path != [] && forall k :: 0 <= k < |path| ==> path[k] != [] && NUL !in path[k] && SLASH !in path[k]
  }

  predicate IsFile(file: File) {
    IsPath(file.path) && |file.content| < U64_COUNT
  }

  // ---- the stream determines the files ----

  function Power(k: nat): (p: nat)
    ensures p > 0
  {
    if k == 0 then 1 else 256 * Power(k - 1)
  }

  lemma {:induction false} LittleEndianInjective(a: nat, b: nat, k: nat)
    requires a < Power(k) && b < Power(k) && LittleEndian(a, k) == LittleEndian(b, k)
    ensures a == b
  {
    if k > 0 {
      assert LittleEndian(a, k)[0] == LittleEndian(b, k)[0];
      assert LittleEndian(a, k)[1..] == LittleEndian(a / 256, k - 1);
      assert LittleEndian(b, k)[1..] == LittleEndian(b / 256, k - 1);
      LittleEndianInjective(a / 256, b / 256, k - 1);
      assert a == 256 * (a / 256) + a % 256 && b == 256 * (b / 256) + b % 256;
    }
  }

  /** The place of the first mark, or the length. */
  function First(s: Bytes, mark: char): nat {
    if s == [] || s[0] == mark then 0 else 1 + First(s[1..], mark)
  }

  lemma {:induction false} FirstAt(a: Bytes, mark: char, rest: Bytes)
    requires mark !in a
    ensures First(a + [mark] + rest, mark) == |a|
  {
    if a != [] {
      FirstAt(a[1..], mark, rest);
      assert (a + [mark] + rest)[1..] == a[1..] + [mark] + rest;
    }
  }

  /** Two texts up to the first mark are equal when the marked texts are. */
  lemma FirstMark(a: Bytes, b: Bytes, mark: char, restA: Bytes, restB: Bytes)
    requires mark !in a && mark !in b && a + [mark] + restA == b + [mark] + restB
    ensures a == b && restA == restB
  {
    hide First;
    FirstAt(a, mark, restA);
    FirstAt(b, mark, restB);
    var s, t := a + [mark] + restA, b + [mark] + restB;
    assert a == s[..|a|] && b == t[..|b|];
    assert restA == s[|a| + 1..] && restB == t[|b| + 1..];
  }

  lemma {:induction false} NameHasNoNul(path: Path)
    requires IsPath(path)
    ensures NUL !in Name(path)
  {
    if |path| > 1 { NameHasNoNul(path[1..]); }
  }

  lemma {:induction false} NameInjective(a: Path, b: Path)
    requires IsPath(a) && IsPath(b) && Name(a) == Name(b)
    ensures a == b
  {
    assert a == [a[0]] + a[1..] && b == [b[0]] + b[1..];
    if |a| > 1 {
      FirstMark(a[0], b[0], SLASH, Name(a[1..]), Name(b[1..]));
      NameInjective(a[1..], b[1..]);
    }
  }

  lemma {:induction false} StreamFront(files: seq<File>)
    requires files != []
    ensures Stream(files) == Frame(files[0]) + Stream(files[1..])
  {
    hide Stream, Frame;
    var n := |files| - 1;
    StreamLast(files);
    NoStream();
    if n > 0 {
      var front, last := Frame(files[0]), Frame(files[n]);
      StreamFront(files[..n]);
      StreamLast(files[1..]);
      assert files[..n][1..] == files[1..][..n - 1];
      var middle := Stream(files[..n][1..]);
      assert front + middle + last == front + (middle + last);
    } else {
      assert files[..0] == [] && files[1..] == [];
    }
  }

  lemma StreamLast(files: seq<File>)
    requires files != []
    ensures Stream(files) == Stream(files[..|files| - 1]) + Frame(files[|files| - 1])
  {
  }

  lemma NoStream()
    ensures Stream([]) == []
  {
  }

  /** One file's frame, read off the front of a stream. */
  lemma FrameInjective(a: File, b: File, restA: Bytes, restB: Bytes)
    requires IsFile(a) && IsFile(b) && Frame(a) + restA == Frame(b) + restB
    ensures a == b && restA == restB
  {
    hide LittleEndian, Name, Frame;
    var lengthA, lengthB := LittleEndian(|a.content|, 8), LittleEndian(|b.content|, 8);
    NameHasNoNul(a.path);
    NameHasNoNul(b.path);
    FrameParts(a, restA);
    FrameParts(b, restB);
    FirstMark(Name(a.path), Name(b.path), NUL, lengthA + (a.content + restA), lengthB + (b.content + restB));
    NameInjective(a.path, b.path);
    SameLengths(lengthA, lengthB, a.content + restA, b.content + restB);
    LittleEndianInjective(|a.content|, |b.content|, 8);
    SameLengths(a.content, b.content, restA, restB);
  }

  lemma FrameParts(file: File, rest: Bytes)
    ensures Frame(file) + rest == Name(file.path) + [NUL] + (LittleEndian(|file.content|, 8) + (file.content + rest))
  {
    hide LittleEndian, Name;
  }

  lemma SameLengths(a: Bytes, b: Bytes, restA: Bytes, restB: Bytes)
    requires |a| == |b| && a + restA == b + restB
    ensures a == b && restA == restB
  {
    assert a == (a + restA)[..|a|] && b == (b + restB)[..|b|];
    assert restA == (a + restA)[|a|..] && restB == (b + restB)[|b|..];
  }

  /** Equal streams come from the same files in the same order. */
  lemma {:induction false} StreamInjective(a: seq<File>, b: seq<File>)
    requires forall k :: 0 <= k < |a| ==> IsFile(a[k])
    requires forall k :: 0 <= k < |b| ==> IsFile(b[k])
    requires Stream(a) == Stream(b)
    ensures a == b
  {
    hide IsFile, Frame;
    if a != [] { StreamFront(a); FrameNotEmpty(a[0]); }
    if b != [] { StreamFront(b); FrameNotEmpty(b[0]); }
    if a != [] && b != [] {
      FrameInjective(a[0], b[0], Stream(a[1..]), Stream(b[1..]));
      StreamInjective(a[1..], b[1..]);
      assert a == [a[0]] + a[1..] && b == [b[0]] + b[1..];
    }
  }

  lemma FrameNotEmpty(file: File)
    ensures |Frame(file)| > 0
  {
  }

  // ---- feeding it ----

  class Hasher {
    var fed: Bytes

    constructor ()
      ensures fed == []
    {
      fed := [];
    }

    method Update(bytes: Bytes)
      modifies this
      ensures fed == old(fed) + bytes
    {
      fed := fed + bytes;
    }

    function Finalize(): Digest
      reads this
    {
      Sha256(fed)
    }
  }

  /** An open file: each read returns some of the bytes still to come, and none only at the end. */
  class Reader {
    const content: Bytes
    var pos: nat

    constructor (content: Bytes)
      ensures this.content == content && pos == 0
    {
      this.content := content;
      pos := 0;
    }

    method Read(capacity: nat) returns (chunk: Bytes)
      requires capacity > 0 && pos <= |content|
      modifies this
      ensures old(pos) <= pos <= |content| && chunk == content[old(pos)..pos] && |chunk| <= capacity
      ensures chunk == [] ==> pos == |content|
    {
      var left := |content| - pos;
      var most := if left < capacity then left else capacity;
      var n: nat :| n <= most && (most > 0 ==> n > 0);
      chunk := content[pos..pos + n];
      pos := pos + n;
    }
  }

  datatype ReadError = Shrank(path: Path)

  /** How many bytes a number of reads return together. */
  function Total(sizes: seq<nat>): nat {
    if sizes == [] then 0 else Total(sizes[..|sizes| - 1]) + sizes[|sizes| - 1]
  }

  /**
   The sizes of the reads while a file of `size` bytes is fed that had `length` when it was opened: as long as
   `length` is not reached there is another read, of at least one byte and at most `capacity`.
   */
  ghost predicate Reading(sizes: seq<nat>, length: nat, size: nat, capacity: nat) {
    && (forall k :: 0 <= k < |sizes| ==> 0 < sizes[k] <= capacity && Total(sizes[..k]) < length)
    && Total(sizes) <= size
  }

  /**
   Feeds one file whose length was `length` when it was opened. The bytes fed are those of the file when it
   still has that length; a shorter file is refused; of a longer one all that its reads returned is fed.
   */
  method HashFile(hasher: Hasher, path: Path, length: nat, reader: Reader, capacity: nat)
    returns (r: Result<(), ReadError>, ghost sizes: seq<nat>)
    requires reader.pos == 0 && capacity > 0
    modifies hasher, reader
    ensures r.Failure? <==> |reader.content| < length
    ensures Reading(sizes, length, |reader.content|, capacity) && Total(sizes) <= |reader.content|
    ensures hasher.fed ==
            old(hasher.fed) + Name(path) + [NUL] + LittleEndian(length, 8) + reader.content[..Total(sizes)]
    ensures if r.Success? then Total(sizes) >= length else Total(sizes) == |reader.content|
    ensures |reader.content| == length ==>
              r.Success? && hasher.fed == old(hasher.fed) + Frame(File(path, reader.content))
  {
    hide Name, LittleEndian, Reading, Total;
    NoReads(length, |reader.content|, capacity);
    hasher.Update(Name(path));
    hasher.Update([NUL]);
    hasher.Update(LittleEndian(length, 8));
    ghost var head := hasher.fed;
    var remaining: nat := length;
    sizes := [];
    assert head + reader.content[..0] == head;
    while remaining > 0
      invariant reader.pos == Total(sizes) <= |reader.content| && Reading(sizes, length, |reader.content|, capacity)
      invariant hasher.fed == head + reader.content[..reader.pos]
      invariant remaining == if reader.pos < length then length - reader.pos else 0
    {
      ghost var before := reader.pos;
      var chunk := reader.Read(capacity);
      if chunk == [] {
        return Failure(Shrank(path)), sizes;
      }
      hasher.Update(chunk);
      assert reader.content[..reader.pos] == reader.content[..before] + chunk;
      OneMoreRead(sizes, |chunk|, length, |reader.content|, capacity);
      sizes := sizes + [|chunk|];
      remaining := if |chunk| < remaining then remaining - |chunk| else 0;
    }
    if |reader.content| == length {
      assert reader.content[..reader.pos] == reader.content;
      assert hasher.fed == old(hasher.fed) + (Name(path) + [NUL] + LittleEndian(length, 8) + reader.content);
    }
    r := Success(());
  }

  lemma NoReads(length: nat, size: nat, capacity: nat)
    ensures Reading([], length, size, capacity) && Total([]) == 0
  {
  }

  lemma OneMoreRead(sizes: seq<nat>, n: nat, length: nat, size: nat, capacity: nat)
    requires Reading(sizes, length, size, capacity)
    requires 0 < n <= capacity && Total(sizes) < length && Total(sizes) + n <= size
    ensures Total(sizes + [n]) == Total(sizes) + n && Reading(sizes + [n], length, size, capacity)
  {
    var more := sizes + [n];
    assert more[..|sizes|] == sizes;
    forall k | 0 <= k < |more| ensures 0 < more[k] <= capacity && Total(more[..k]) < length {
      if k < |sizes| { assert more[..k] == sizes[..k]; }
    }
  }

  /** A way of reading a file until `length` is reached. */
  ghost predicate Completed(sizes: seq<nat>, length: nat, size: nat, capacity: nat) {
    Reading(sizes, length, size, capacity) && Total(sizes) >= length
  }

  /** Every reading of a file feeds exactly its opening length. */
  ghost predicate NeverOverfed(length: nat, size: nat, capacity: nat) {
    forall sizes :: Completed(sizes, length, size, capacity) ==> Total(sizes) == length
  }

  lemma SingleBytes(n: nat, length: nat, size: nat, capacity: nat) returns (sizes: seq<nat>)
    requires n <= length <= size && capacity > 0
    ensures Reading(sizes, length, size, capacity) && Total(sizes) == n
  {
    if n == 0 {
      sizes := [];
    } else {
      sizes := SingleBytes(n - 1, length, size, capacity);
      OneMoreRead(sizes, 1, length, size, capacity);
      sizes := sizes + [1];
    }
  }

  /** Of a file at least as long as it was, exactly the old length is sure to be fed only in these three cases. */
  lemma OverfedExactly(length: nat, size: nat, capacity: nat)
    requires length <= size && capacity > 0
    ensures NeverOverfed(length, size, capacity) <==> size == length || length == 0 || capacity == 1
  {
    forall sizes | Completed(sizes, length, size, capacity) && Total(sizes) > length
      ensures size != length && length != 0 && capacity != 1
    {
      var n := |sizes| - 1;
      assert Total(sizes[..n]) < length && Total(sizes) == Total(sizes[..n]) + sizes[n];
    }
    if size > length > 0 && capacity > 1 {
      var sizes := SingleBytes(length - 1, length, size, capacity);
      OneMoreRead(sizes, 2, length, size, capacity);
      assert Completed(sizes + [2], length, size, capacity);
    }
  }

  /** A file of one byte that has grown to two can be read, and fed, whole at once. */
  lemma GrownFileOverfed()
    ensures Completed([2], 1, 2, 2) && Total([2]) == 2
  {
    assert [2][..0] == [] && Total([]) == 0;
  }

  /** The digest of files that do not change while they are read. */
  method DigestOf(files: seq<File>, capacity: nat) returns (digest: Digest)
    requires capacity > 0
    ensures digest == Sha256(Stream(files))
  {
    hide Frame;
    var hasher := new Hasher();
    assert files[..0] == [];
    for i := 0 to |files|
      invariant fresh(hasher) && hasher.fed == Stream(files[..i])
    {
      assert files[..i + 1][..i] == files[..i];
      var reader := new Reader(files[i].content);
      var r, sizes := HashFile(hasher, files[i].path, |files[i].content|, reader, capacity);
    }
    assert files[..|files|] == files;
    digest := hasher.Finalize();
  }

  /** Equal digests mean equal files in the same order. */
  lemma DigestsDetermineFiles(a: seq<File>, b: seq<File>)
    requires forall k :: 0 <= k < |a| ==> IsFile(a[k])
    requires forall k :: 0 <= k < |b| ==> IsFile(b[k])
    ensures Sha256(Stream(a)) == Sha256(Stream(b)) <==> a == b
  {
    if Stream(a) == Stream(b) {
      StreamInjective(a, b);
    }
  }
}
