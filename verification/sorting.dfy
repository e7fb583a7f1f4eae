/** Ordering results the way the handlers do: pandas `sort_values` for
    the matcher rows and SQL `ORDER BY` for listings. Both are modelled by
    one insertion sort parameterised by a total preorder; the model promises
    only what the source promises (a sorted permutation), not a tie order. */
module Sorting {

  ghost predicate IsTotalPreorder<T(!new)>(le: (T, T) -> bool) {
    && (forall a, b :: le(a, b) || le(b, a))
    && (forall a, b, c :: le(a, b) && le(b, c) ==> le(a, c))
  }

  predicate SortedBy<T>(s: seq<T>, le: (T, T) -> bool) {
    forall i, j | 0 <= i < j < |s| :: le(s[i], s[j])
  }

  function Insert<T>(x: T, s: seq<T>, le: (T, T) -> bool): (r: seq<T>)
    ensures multiset(r) == multiset(s) + multiset{x}
  {
    if |s| == 0 then [x]
    else if le(x, s[0]) then [x] + s
    else
      assert s == [s[0]] + s[1..];
      [s[0]] + Insert(x, s[1..], le)
  }

  lemma {:induction false} InsertSorted<T(!new)>(x: T, s: seq<T>, le: (T, T) -> bool)
    requires IsTotalPreorder(le)
    requires SortedBy(s, le)
    ensures SortedBy(Insert(x, s, le), le)
  {
    if |s| > 0 && !le(x, s[0]) {
      var rest := Insert(x, s[1..], le);
      InsertSorted(x, s[1..], le);
      assert s == [s[0]] + s[1..];
      forall j | 0 <= j < |rest|
        ensures le(s[0], rest[j])
      {
        assert rest[j] in multiset(rest);
        if rest[j] != x {
          assert rest[j] in multiset(s[1..]);
          var k :| 0 <= k < |s[1..]| && s[1..][k] == rest[j];
          assert s[k + 1] == rest[j];
        }
      }
      var r := [s[0]] + rest;
      forall i, j | 0 <= i < j < |r|
        ensures le(r[i], r[j])
      {
        if i == 0 {
          assert r[j] == rest[j - 1];
        } else {
          assert r[i] == rest[i - 1] && r[j] == rest[j - 1];
        }
      }
    }
  }

  /** A sorted permutation of s. */
  function Sort<T(!new)>(s: seq<T>, le: (T, T) -> bool): (r: seq<T>)
    requires IsTotalPreorder(le)
    ensures multiset(r) == multiset(s)
    ensures |r| == |s|
    ensures SortedBy(r, le)
  {
    if |s| == 0 then []
    else
      assert s == [s[0]] + s[1..];
      InsertSorted(s[0], Sort(s[1..], le), le);
      Insert(s[0], Sort(s[1..], le), le)
  }

  /** Everything a sorted sequence's first k elements leave out comes no
      earlier than anything they keep. */
  lemma PrefixPrecedesRest<T>(r: seq<T>, k: nat, le: (T, T) -> bool)
    requires SortedBy(r, le)
    requires k <= |r|
    ensures multiset(r) - multiset(r[..k]) == multiset(r[k..])
    ensures forall x, y | x in multiset(r[k..]) && y in r[..k] :: le(y, x)
  {
    assert r == r[..k] + r[k..];
    forall x, y | x in multiset(r[k..]) && y in r[..k]
      ensures le(y, x)
    {
      var i :| 0 <= i < |r[k..]| && r[k..][i] == x;
      var j :| 0 <= j < k && r[..k][j] == y;
      assert r[j] == y && r[k + i] == x;
    }
  }

  /** The first element of a non-empty sorted permutation of s is a least
      element of s. */
  lemma HeadIsLeast<T(!new)>(s: seq<T>, r: seq<T>, le: (T, T) -> bool)
    requires |r| > 0
    requires SortedBy(r, le)
    requires IsTotalPreorder(le)
    requires multiset(r) == multiset(s)
    ensures r[0] in s
    ensures forall x | x in s :: le(r[0], x)
  {
    assert r[0] in multiset(s);
    forall x | x in s
      ensures le(r[0], x)
    {
      assert x in multiset(r);
      var i :| 0 <= i < |r| && r[i] == x;
      if i == 0 {
        assert le(x, x) || le(x, x);
      }
    }
  }

  /** `ORDER BY … LIMIT n`: the first n elements in the order le. */
  function FirstSorted<T(!new)>(s: seq<T>, le: (T, T) -> bool, n: nat): (r: seq<T>)
    requires IsTotalPreorder(le)
    ensures |r| == if n < |s| then n else |s|
    ensures multiset(r) <= multiset(s)
    ensures SortedBy(r, le)
    ensures forall x, y | x in multiset(s) - multiset(r) && y in r :: le(y, x)
  {
    var sorted := Sort(s, le);
    var k := if n < |s| then n else |s|;
    PrefixPrecedesRest(sorted, k, le);
    SortedPrefix(sorted, k, le);
    sorted[..k]
  }

  lemma SortedPrefix<T>(r: seq<T>, k: nat, le: (T, T) -> bool)
    requires SortedBy(r, le)
    requires k <= |r|
    ensures SortedBy(r[..k], le)
    ensures multiset(r[..k]) <= multiset(r)
  {
    assert r == r[..k] + r[k..];
    forall i, j | 0 <= i < j < k
      ensures le(r[..k][i], r[..k][j])
    {
      assert r[..k][i] == r[i] && r[..k][j] == r[j];
    }
  }
}
