/** The document store's `.sort({ field: 1 })`, by its plain meaning: an ascending sort on an integer key. */
module Sorting {

  ghost predicate SortedBy<T>(s: seq<T>, key: T -> int) {
    forall i, j :: 0 <= i < j < |s| ==> key(s[i]) <= key(s[j])
  }

  function Insert<T>(x: T, s: seq<T>, key: T -> int): (r: seq<T>)
    ensures multiset(r) == multiset(s) + multiset{x}
  {
    if s == [] || key(x) <= key(s[0]) then [x] + s
    else
      assert s == [s[0]] + s[1..];
      [s[0]] + Insert(x, s[1..], key)
  }

  /** A lower bound on the keys of x and of s bounds the keys of the insertion. */
  lemma {:induction false} InsertAbove<T>(x: T, s: seq<T>, key: T -> int, bound: int)
    requires bound <= key(x)
    requires forall k :: 0 <= k < |s| ==> bound <= key(s[k])
    ensures forall k :: 0 <= k < |Insert(x, s, key)| ==> bound <= key(Insert(x, s, key)[k])
    decreases |s|
  {
    if s != [] && key(s[0]) < key(x) {
      InsertAbove(x, s[1..], key, bound);
    }
  }

  /** Inserting into a sorted sequence keeps it sorted. */
  lemma {:induction false} InsertSorted<T>(x: T, s: seq<T>, key: T -> int)
    requires SortedBy(s, key)
    ensures SortedBy(Insert(x, s, key), key)
    decreases |s|
  {
    if s != [] && key(s[0]) < key(x) {
      var tail := s[1..];
      var rest := Insert(x, tail, key);
      assert SortedBy(tail, key) by {
        forall i, j | 0 <= i < j < |tail| ensures key(tail[i]) <= key(tail[j]) {
          assert tail[i] == s[i + 1] && tail[j] == s[j + 1];
        }
      }
      InsertSorted(x, tail, key);
      forall k | 0 <= k < |tail| ensures key(s[0]) <= key(tail[k]) {
        assert tail[k] == s[k + 1];
      }
      InsertAbove(x, tail, key, key(s[0]));
      var r := [s[0]] + rest;
      assert Insert(x, s, key) == r;
      forall i, j | 0 <= i < j < |r| ensures key(r[i]) <= key(r[j]) {
        assert r[j] == rest[j - 1];
        if i > 0 {
          assert r[i] == rest[i - 1];
        }
      }
    }
  }

  /** Sorts by ascending key; the result is a permutation of the input. */
  function SortBy<T>(s: seq<T>, key: T -> int): (r: seq<T>)
    ensures multiset(r) == multiset(s)
    ensures |r| == |s|
    ensures SortedBy(r, key)
  {
    if s == [] then []
    else
      assert s == [s[0]] + s[1..];
      var rest := SortBy(s[1..], key);
      InsertSorted(s[0], rest, key);
      Insert(s[0], rest, key)
  }
}
