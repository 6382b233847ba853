/**
 Lexicographic order and stable sorting: `str`'s and tuples' derived order, `sort_by` and `dedup`
 as the index tools use them. Keys are tuples of strings.
 */
module Ordering {

  type Key = seq<string>

  /** Code point order, which is the byte order of the UTF-8 spelling. */
  predicate StrLeq(a: string, b: string) {
    a == [] || (b != [] && (a[0] < b[0] || (a[0] == b[0] && StrLeq(a[1..], b[1..]))))
  }

  predicate KeyLeq(a: Key, b: Key) {
    a == [] || (b != [] && if a[0] == b[0] then KeyLeq(a[1..], b[1..]) else StrLeq(a[0], b[0]))
  }

  lemma StrTotal(a: string, b: string)
    ensures StrLeq(a, b) || StrLeq(b, a)
    ensures StrLeq(a, b) && StrLeq(b, a) ==> a == b
  {
    if a != [] && b != [] && a[0] == b[0] {
      StrTotal(a[1..], b[1..]);
      assert a == [a[0]] + a[1..] && b == [b[0]] + b[1..];
    }
  }

  lemma StrTransitive(a: string, b: string, c: string)
    requires StrLeq(a, b) && StrLeq(b, c)
    ensures StrLeq(a, c)
  {
    if a != [] && a[0] == b[0] && b[0] == c[0] {
      StrTransitive(a[1..], b[1..], c[1..]);
    }
  }

  lemma KeyTotal(a: Key, b: Key)
    ensures KeyLeq(a, b) || KeyLeq(b, a)
    ensures KeyLeq(a, b) && KeyLeq(b, a) ==> a == b
  {
    if a != [] && b != [] {
      StrTotal(a[0], b[0]);
      if a[0] == b[0] {
        KeyTotal(a[1..], b[1..]);
        assert a == [a[0]] + a[1..] && b == [b[0]] + b[1..];
      }
    }
  }

  lemma KeyTransitive(a: Key, b: Key, c: Key)
    requires KeyLeq(a, b) && KeyLeq(b, c)
    ensures KeyLeq(a, c)
  {
    if a != [] {
      if a[0] == b[0] && b[0] == c[0] {
        KeyTransitive(a[1..], b[1..], c[1..]);
      } else if a[0] != b[0] && b[0] != c[0] {
        StrTransitive(a[0], b[0], c[0]);
        StrTotal(a[0], b[0]);
      }
    }
  }

  ghost predicate Sorted<T>(s: seq<T>, key: T -> Key) {
    forall i, j :: 0 <= i < j < |s| ==> KeyLeq(key(s[i]), key(s[j]))
  }

  /** Distinct elements have distinct keys. */
  ghost predicate KeyInjective<T>(s: seq<T>, key: T -> Key) {
    forall i, j :: 0 <= i < |s| && 0 <= j < |s| && key(s[i]) == key(s[j]) ==> s[i] == s[j]
  }

  /** No two positions share a key. */
  ghost predicate UniqueKeys<T>(s: seq<T>, key: T -> Key) {
    forall i, j :: 0 <= i < j < |s| ==> key(s[i]) != key(s[j])
  }

  function Insert<T>(x: T, s: seq<T>, key: T -> Key): seq<T> {
    if s == [] || KeyLeq(key(x), key(s[0])) then [x] + s else [s[0]] + Insert(x, s[1..], key)
  }

  /** The stable sort by key. */
  function SortBy<T>(s: seq<T>, key: T -> Key): seq<T> {
    if s == [] then [] else Insert(s[0], SortBy(s[1..], key), key)
  }

  lemma {:induction false} InsertSorted<T>(x: T, s: seq<T>, key: T -> Key)
    requires Sorted(s, key)
    ensures Sorted(Insert(x, s, key), key)
    ensures multiset(Insert(x, s, key)) == multiset(s) + multiset{x}
  {
    hide KeyLeq, Sorted;
    if s != [] && !KeyLeq(key(x), key(s[0])) {
      TailKeeps(s, key);
      InsertSorted(x, s[1..], key);
      var tail := Insert(x, s[1..], key);
      assert s == [s[0]] + s[1..];
      forall k | 0 <= k < |tail| ensures KeyLeq(key(s[0]), key(tail[k])) {
        assert tail[k] in multiset(tail);
        KeyTotal(key(x), key(s[0]));
        if tail[k] != x {
          HeadIsLeast(s, key, tail[k]);
        }
      }
      SortedCons(s[0], tail, key);
    } else {
      forall k | 0 <= k < |s| ensures KeyLeq(key(x), key(s[k])) {
        HeadIsLeast(s, key, s[k]);
        KeyTransitive(key(x), key(s[0]), key(s[k]));
      }
      SortedCons(x, s, key);
    }
  }

  lemma HeadIsLeast<T>(s: seq<T>, key: T -> Key, x: T)
    requires Sorted(s, key) && x in s
    ensures KeyLeq(key(s[0]), key(x))
  {
    hide KeyLeq;
    KeyTotal(key(x), key(x));
  }

  lemma SortedCons<T>(x: T, s: seq<T>, key: T -> Key)
    requires Sorted(s, key) && forall k :: 0 <= k < |s| ==> KeyLeq(key(x), key(s[k]))
    ensures Sorted([x] + s, key)
  {
    hide KeyLeq;
  }

  lemma TailKeeps<T>(s: seq<T>, key: T -> Key)
    requires Sorted(s, key) && s != []
    ensures Sorted(s[1..], key)
  {
    hide KeyLeq;
  }

  /** Sorting orders the elements and only moves them about. */
  lemma {:induction false} SortBySorts<T>(s: seq<T>, key: T -> Key)
    ensures Sorted(SortBy(s, key), key)
    ensures multiset(SortBy(s, key)) == multiset(s)
    ensures |SortBy(s, key)| == |s|
  {
    hide KeyLeq, Sorted, Insert;
    if s != [] {
      SortBySorts(s[1..], key);
      InsertSorted(s[0], SortBy(s[1..], key), key);
      assert s == [s[0]] + s[1..];
    } else {
      NoneSorted(key);
    }
    assert |multiset(SortBy(s, key))| == |SortBy(s, key)| && |multiset(s)| == |s|;
  }

  lemma NoneSorted<T>(key: T -> Key)
    ensures Sorted([], key)
  {
  }

  lemma InMultiset<T>(s: seq<T>, t: seq<T>, x: T)
    requires multiset(s) == multiset(t)
    ensures x in s <==> x in t
  {
    assert x in s <==> x in multiset(s);
    assert x in t <==> x in multiset(t);
  }

  lemma SortedHeads<T>(s: seq<T>, t: seq<T>, key: T -> Key)
    requires Sorted(s, key) && Sorted(t, key) && multiset(s) == multiset(t) && s != [] && t != []
    ensures KeyLeq(key(s[0]), key(t[0]))
  {
    hide KeyLeq;
    InMultiset(s, t, t[0]);
    var j :| 0 <= j < |s| && s[j] == t[0];
    KeyTotal(key(s[0]), key(s[0]));
  }

  lemma MultisetTail<T>(s: seq<T>)
    requires s != []
    ensures multiset(s[1..]) == multiset(s) - multiset{s[0]}
  {
    assert s == [s[0]] + s[1..];
  }

  /** A sorted arrangement is unique when distinct elements have distinct keys. */
  lemma {:induction false} SortedUnique<T>(s: seq<T>, t: seq<T>, key: T -> Key)
    requires Sorted(s, key) && Sorted(t, key) && multiset(s) == multiset(t)
    requires KeyInjective(s, key)
    ensures s == t
  {
    hide KeyLeq, Sorted, KeyInjective;
    assert |multiset(s)| == |s| && |multiset(t)| == |t|;
    if s != [] {
      SameHead(s, t, key);
      MultisetTail(s);
      MultisetTail(t);
      TailKeeps(s, key);
      TailKeeps(t, key);
      TailInjective(s, key);
      SortedUnique(s[1..], t[1..], key);
      assert s == [s[0]] + s[1..] && t == [t[0]] + t[1..];
    }
  }

  lemma SameHead<T>(s: seq<T>, t: seq<T>, key: T -> Key)
    requires Sorted(s, key) && Sorted(t, key) && multiset(s) == multiset(t) && KeyInjective(s, key) && s != [] && t != []
    ensures s[0] == t[0]
  {
    hide KeyLeq, Sorted;
    SortedHeads(s, t, key);
    SortedHeads(t, s, key);
    KeyTotal(key(s[0]), key(t[0]));
    InMultiset(s, t, t[0]);
  }

  lemma TailInjective<T>(s: seq<T>, key: T -> Key)
    requires KeyInjective(s, key) && s != []
    ensures KeyInjective(s[1..], key)
  {
  }

  /** Sorting two arrangements of the same elements gives the same sequence. */
  lemma SortByCanonical<T>(s: seq<T>, t: seq<T>, key: T -> Key)
    requires multiset(s) == multiset(t) && KeyInjective(s, key)
    ensures SortBy(s, key) == SortBy(t, key)
  {
    SortBySorts(s, key);
    SortBySorts(t, key);
    var r := SortBy(s, key);
    forall i, j | 0 <= i < |r| && 0 <= j < |r| && key(r[i]) == key(r[j]) ensures r[i] == r[j] {
      InMultiset(r, s, r[i]);
      InMultiset(r, s, r[j]);
    }
    SortedUnique(r, SortBy(t, key), key);
  }

  lemma {:induction false} SortByFixpoint<T>(s: seq<T>, key: T -> Key)
    requires Sorted(s, key)
    ensures SortBy(s, key) == s
  {
    if s != [] {
      SortByFixpoint(s[1..], key);
      assert s == [s[0]] + s[1..];
    }
  }

  /** `Vec::dedup`: drops an element equal to its predecessor. */
  function Dedup<T(==)>(s: seq<T>): seq<T> {
    if |s| < 2 then s
    else if s[0] == s[1] then Dedup(s[1..])
    else [s[0]] + Dedup(s[1..])
  }

  lemma {:induction false} DedupKeeps<T>(s: seq<T>, x: T)
    ensures x in Dedup(s) <==> x in s
    ensures s != [] ==> Dedup(s) != [] && Dedup(s)[0] == s[0]
  {
    if |s| >= 2 {
      DedupKeeps(s[1..], x);
      assert s == [s[0]] + s[1..];
      assert x in s <==> x == s[0] || x in s[1..];
    }
  }

  /** After a sort that tells all elements apart, `dedup` leaves each element once, still in order. */
  lemma {:induction false} DedupSorted<T>(s: seq<T>, key: T -> Key)
    requires Sorted(s, key) && KeyInjective(s, key)
    ensures Sorted(Dedup(s), key) && UniqueKeys(Dedup(s), key)
  {
    if |s| >= 2 {
      DedupSorted(s[1..], key);
      var d := Dedup(s[1..]);
      if s[0] != s[1] {
        forall k | 0 <= k < |d| ensures KeyLeq(key(s[0]), key(d[k])) && key(s[0]) != key(d[k]) {
          DedupKeeps(s[1..], d[k]);
          var m :| 0 <= m < |s[1..]| && s[1..][m] == d[k];
          assert s[m + 1] == d[k];
          KeyTotal(key(s[0]), key(s[1]));
        }
      }
    }
  }

  lemma {:induction false} DedupFixpoint<T>(s: seq<T>, key: T -> Key)
    requires UniqueKeys(s, key)
    ensures Dedup(s) == s
  {
    if |s| >= 2 {
      assert key(s[0]) != key(s[1]);
      DedupFixpoint(s[1..], key);
      assert s == [s[0]] + s[1..];
    }
  }

  lemma {:induction false} UniqueCount<T>(s: seq<T>, key: T -> Key, x: T)
    requires UniqueKeys(s, key)
    ensures multiset(s)[x] == if x in s then 1 else 0
  {
    if s != [] {
      UniqueCount(s[1..], key, x);
      assert s == [s[0]] + s[1..];
      if x in s[1..] {
        var m :| 0 <= m < |s[1..]| && s[1..][m] == x;
        assert s[m + 1] == x;
      }
    }
  }

  /** Rearranging keeps keys from repeating. */
  lemma UniquePermutes<T>(a: seq<T>, b: seq<T>, key: T -> Key)
    requires multiset(a) == multiset(b) && UniqueKeys(a, key)
    ensures UniqueKeys(b, key)
  {
    forall i, j | 0 <= i < j < |b| ensures key(b[i]) != key(b[j]) {
      InMultiset(a, b, b[i]);
      InMultiset(a, b, b[j]);
      if b[i] == b[j] {
        assert b == b[..i] + [b[i]] + b[i + 1..j] + [b[j]] + b[j + 1..];
        assert multiset(b)[b[i]] >= 2;
        UniqueCount(a, key, b[i]);
        assert false;
      }
    }
  }
}
