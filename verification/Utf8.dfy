/** Byte-level UTF-8: character boundaries and white space. */
module Utf8 {

  type byte = bv8
  type Bytes = seq<byte>

  predicate IsContinuation(b: byte) {
    0x80 <= b < 0xC0
  }

  /** The length a character's first byte announces (section 3 of RFC 3629); 0 for no first byte. */
  function CharLen(b: byte): nat {
    if b < 0x80 then 1
    else if b < 0xC0 then 0
    else if b < 0xE0 then 2
    else if b < 0xF0 then 3
    else if b < 0xF8 then 4
    else 0
  }

  /** One complete character after another. */
  ghost predicate Valid(s: Bytes) {
    s == [] ||
    (var n := CharLen(s[0]);
     1 <= n <= |s| && (forall k :: 1 <= k < n ==> IsContinuation(s[k])) && Valid(s[n..]))
  }

  /** `str::is_char_boundary` */
  predicate IsBoundary(s: Bytes, i: int) {
    i == 0 || i == |s| || (0 < i < |s| && !IsContinuation(s[i]))
  }

  /** Past the first character, the rest has the same boundaries. */
  lemma ShiftBoundary(s: Bytes, n: nat, j: nat)
    requires Valid(s) && s != [] && n == CharLen(s[0]) && n <= j <= |s|
    ensures IsBoundary(s[n..], j - n) <==> IsBoundary(s, j)
  {
    if j == n && n < |s| {
      assert s[n..][0] == s[n];
    }
  }

  /** From a boundary the next one is exactly one character away. */
  lemma {:induction false} NextBoundary(s: Bytes, i: nat)
    requires Valid(s) && i < |s| && IsBoundary(s, i)
    ensures var n := CharLen(s[i]);
            && 1 <= n <= 4 && i + n <= |s| && IsBoundary(s, i + n)
            && forall j :: i < j < i + n ==> !IsBoundary(s, j)
    decreases |s|
  {
    var n := CharLen(s[0]);
    if i == 0 {
      ShiftBoundary(s, n, n);
    } else {
      var m := CharLen(s[i]);
      ShiftBoundary(s, n, i);
      NextBoundary(s[n..], i - n);
      assert s[n..][i - n] == s[i];
      ShiftBoundary(s, n, i + m);
      forall j | i < j < i + m ensures !IsBoundary(s, j) {
        ShiftBoundary(s, n, j);
        assert !IsBoundary(s[n..], j - n);
      }
    }
  }

  // ---- white space ----

  predicate IsSpaceChar(c: Bytes) {
    || (|c| == 1 && (9 <= c[0] <= 13 || c[0] == 32))
    || (|c| == 2 && c[0] == 0xC2 && (c[1] == 0x85 || c[1] == 0xA0))
    || c == [0xE1, 0x9A, 0x80]
    || (|c| == 3 && c[0] == 0xE2 && c[1] == 0x80 && (0x80 <= c[2] <= 0x8A || c[2] in [0xA8, 0xA9, 0xAF]))
    || c == [0xE2, 0x81, 0x9F]
    || c == [0xE3, 0x80, 0x80]
  }

  /** Past the white space that starts at `i`. */
  function SkipSpace(s: Bytes, i: nat): (r: nat)
    requires i <= |s|
    ensures i <= r <= |s|
    decreases |s| - i
  {
    if i + 1 <= |s| && IsSpaceChar(s[i..i + 1]) then SkipSpace(s, i + 1)
    else if i + 2 <= |s| && IsSpaceChar(s[i..i + 2]) then SkipSpace(s, i + 2)
    else if i + 3 <= |s| && IsSpaceChar(s[i..i + 3]) then SkipSpace(s, i + 3)
    else i
  }

  /** Before the white space that ends at `i`, no further than `low`. */
  function SkipSpaceBack(s: Bytes, low: nat, i: nat): (r: nat)
    requires low <= i <= |s|
    ensures low <= r <= i
    decreases i
  {
    if low + 1 <= i && IsSpaceChar(s[i - 1..i]) then SkipSpaceBack(s, low, i - 1)
    else if low + 2 <= i && IsSpaceChar(s[i - 2..i]) then SkipSpaceBack(s, low, i - 2)
    else if low + 3 <= i && IsSpaceChar(s[i - 3..i]) then SkipSpaceBack(s, low, i - 3)
    else i
  }

  /** `str::trim` */
  function Trim(s: Bytes): (r: Bytes)
    ensures |r| <= |s|
  {
    var start := SkipSpace(s, 0);
    s[start..SkipSpaceBack(s, start, |s|)]
  }
}
