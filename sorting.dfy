/**
 * Python's stable `sorted`/`list.sort` with a `key` that yields a pair of
 * integers, compared lexicographically.
 */
module Sorting {

  datatype Key = Key(major: int, minor: int)

  predicate KeyLess(a: Key, b: Key) {
    a.major < b.major || (a.major == b.major && a.minor < b.minor)
  }

  ghost predicate SortedBy<T>(s: seq<T>, key: T -> Key) {
    forall i, j :: 0 <= i < j < |s| ==> !KeyLess(key(s[j]), key(s[i]))
  }

  /** Insert in front of the first entry whose key is not smaller, so that
      equal keys keep their original order. */
  function InsertBy<T>(x: T, s: seq<T>, key: T -> Key): (t: seq<T>)
    requires SortedBy(s, key)
    ensures SortedBy(t, key) && multiset(t) == multiset(s) + multiset{x}
  {
    if s == [] || !KeyLess(key(s[0]), key(x)) then [x] + s
    else
      assert s == [s[0]] + s[1..];
      var t := InsertBy(x, s[1..], key);
      assert forall k :: 0 <= k < |t| ==> !KeyLess(key(t[k]), key(s[0])) by {
        forall k | 0 <= k < |t| ensures !KeyLess(key(t[k]), key(s[0])) {
          assert t[k] in multiset(t);
          if t[k] != x {
            assert t[k] in multiset(s[1..]);
            var m :| 0 <= m < |s[1..]| && s[1..][m] == t[k];
            assert s[m + 1] == t[k];
          }
        }
      }
      [s[0]] + t
  }

  /** A stable insertion sort. */
  function SortBy<T>(s: seq<T>, key: T -> Key): (t: seq<T>)
    ensures SortedBy(t, key) && multiset(t) == multiset(s) && |t| == |s|
  {
    if s == [] then []
    else
      assert s == [s[0]] + s[1..];
      InsertBy(s[0], SortBy(s[1..], key), key)
  }

  /** The entries of `s` whose key is k, in order. */
  function WithKey<T>(s: seq<T>, key: T -> Key, k: Key): seq<T> {
    if s == [] then []
    else (if key(s[0]) == k then [s[0]] else []) + WithKey(s[1..], key, k)
  }

  lemma {:induction false} InsertByStable<T>(x: T, s: seq<T>, key: T -> Key, k: Key)
    requires SortedBy(s, key)
    ensures WithKey(InsertBy(x, s, key), key, k) == (if key(x) == k then [x] else []) + WithKey(s, key, k)
  {
    if s == [] || !KeyLess(key(s[0]), key(x)) {
      assert ([x] + s)[1..] == s;
    } else {
      assert SortedBy(s[1..], key);
      InsertByStable(x, s[1..], key, k);
      var t := InsertBy(x, s, key);
      assert t[1..] == InsertBy(x, s[1..], key);
    }
  }

  /** Entries with equal keys keep their relative order. */
  lemma {:induction false} SortByStable<T>(s: seq<T>, key: T -> Key, k: Key)
    ensures WithKey(SortBy(s, key), key, k) == WithKey(s, key, k)
  {
    if s != [] {
      SortByStable(s[1..], key, k);
      InsertByStable(s[0], SortBy(s[1..], key), key, k);
    }
  }
}
