/** What the store's `ORDER BY key DESC LIMIT n OFFSET k` does to a result
    set: a descending sort by an integer key, and then a window of it. The
    database leaves the order of rows that tie unspecified; this sort puts
    them in reverse insertion order. */
module Ordering {
  import opened Common

  predicate SortedDesc<T>(s: seq<T>, key: T -> int)
  {
    forall i, j :: 0 <= i < j < |s| ==> key(s[i]) >= key(s[j])
  }

  /** `x` placed before the first element whose key is smaller than its own. */
  function InsertDesc<T>(x: T, s: seq<T>, key: T -> int): (r: seq<T>)
    ensures |r| == |s| + 1
    ensures multiset(r) == multiset(s) + multiset{x}
    decreases |s|
  {
    if s == [] || key(s[0]) < key(x) then [x] + s
    else
      assert s == [s[0]] + s[1..];
      [s[0]] + InsertDesc(x, s[1..], key)
  }

  /** Insertion sort, newest (largest key) first; a permutation of its input. */
  function SortDesc<T>(s: seq<T>, key: T -> int): (r: seq<T>)
    ensures |r| == |s|
    ensures multiset(r) == multiset(s)
    decreases |s|
  {
    if s == [] then []
    else
      assert s == [s[0]] + s[1..];
      InsertDesc(s[0], SortDesc(s[1..], key), key)
  }

  predicate AllAtMost<T>(s: seq<T>, key: T -> int, bound: int)
  {
    forall i :: 0 <= i < |s| ==> key(s[i]) <= bound
  }

  /** Inserting keeps every key under a bound that `x` and `s` respect. */
  lemma {:induction false} InsertDescAtMost<T>(x: T, s: seq<T>, key: T -> int, bound: int)
    requires AllAtMost(s, key, bound) && key(x) <= bound
    ensures AllAtMost(InsertDesc(x, s, key), key, bound)
    decreases |s|
  {
    if s != [] && key(s[0]) >= key(x) {
      InsertDescAtMost(x, s[1..], key, bound);
      var r := InsertDesc(x, s, key);
      assert forall i :: 1 <= i < |r| ==> r[i] == InsertDesc(x, s[1..], key)[i - 1];
    }
  }

  lemma {:induction false} InsertDescSorted<T>(x: T, s: seq<T>, key: T -> int)
    requires SortedDesc(s, key)
    ensures SortedDesc(InsertDesc(x, s, key), key)
    decreases |s|
  {
    if s != [] && key(s[0]) >= key(x) {
      var rest := InsertDesc(x, s[1..], key);
      InsertDescSorted(x, s[1..], key);
      assert AllAtMost(s[1..], key, key(s[0]));
      InsertDescAtMost(x, s[1..], key, key(s[0]));
      var r := InsertDesc(x, s, key);
      assert r == [s[0]] + rest;
      forall i, j | 0 <= i < j < |r| ensures key(r[i]) >= key(r[j]) {
        assert r[j] == rest[j - 1];
        if i > 0 { assert r[i] == rest[i - 1]; }
      }
    }
  }

  /** The sort orders by descending key. */
  lemma {:induction false} SortDescSorted<T>(s: seq<T>, key: T -> int)
    ensures SortedDesc(SortDesc(s, key), key)
    decreases |s|
  {
    if s != [] {
      SortDescSorted(s[1..], key);
      InsertDescSorted(s[0], SortDesc(s[1..], key), key);
    }
  }

  /** `LIMIT limit OFFSET offset`: the rows from position `offset` on, at most
      `limit` of them. The database refuses a negative limit or offset (None). */
  function Page<T>(s: seq<T>, limit: int, offset: int): (r: Option<seq<T>>)
    ensures r.None? <==> limit < 0 || offset < 0
    ensures r.Some? ==> |r.value| == if offset >= |s| then 0 else Min(limit, |s| - offset)
    ensures r.Some? ==> forall i :: 0 <= i < |r.value| ==> r.value[i] == s[offset + i]
  {
    if limit < 0 || offset < 0 then None
    else if offset >= |s| then Some([])
    else Some(s[offset..offset + Min(limit, |s| - offset)])
  }

  function Min(a: int, b: int): int { if a <= b then a else b }
}
