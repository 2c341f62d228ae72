/** The pieces of the SQL engine that the catalogue's statements rely on and that
    are not plain filters: enumerating a result set in some order, ORDER BY ... DESC,
    COALESCE(MAX(...), d) and LIMIT ... OFFSET ... . */
module Ordering {

  /** Some member of a non-empty set (the row a `LIMIT 1` query happens to return). */
  method Pick<T>(s: set<T>) returns (x: T)
    requires s != {}
    ensures x in s
  {
    x :| x in s;
  }

  ghost function Any<T>(s: set<T>): (x: T)
    requires s != {}
    ensures x in s
  {
    var e :| e in s; e
  }

  /** COALESCE(MAX(s), d): the largest member, or d when there is none. */
  ghost function MaxOr(s: set<int>, d: int): (m: int)
    ensures s == {} ==> m == d
    ensures s != {} ==> m in s && forall y :: y in s ==> y <= m
    decreases s
  {
    if s == {} then d
    else
      var x := Any(s);
      var rest := MaxOr(s - {x}, x);
      assert forall y :: y in s ==> y == x || y in s - {x};
      if x > rest then x else rest
  }

  /** The aggregate computed row by row. */
  method MaxOf(s: set<int>, d: int) returns (m: int)
    ensures m == MaxOr(s, d)
  {
    m := d;
    var rest := s;
    while rest != {}
      invariant rest <= s
      invariant rest == s ==> m == d
      invariant rest != s ==> m in s - rest && forall y :: y in s - rest ==> y <= m
      decreases rest
    {
      var x := Pick(rest);
      assert forall y :: y in s - (rest - {x}) ==> y in s - rest || y == x;
      if rest == s || x > m {
        m := x;
      }
      rest := rest - {x};
    }
    assert s - rest == s;
  }

  /** A result set listed in whatever order the engine produces: every row exactly once. */
  method ListOf<T>(s: set<T>) returns (r: seq<T>)
    ensures multiset(r) == multiset(s)
  {
    r := [];
    var rest := s;
    while rest != {}
      invariant rest <= s
      invariant multiset(r) + multiset(rest) == multiset(s)
      decreases rest
    {
      var x := Pick(rest);
      r := r + [x];
      assert multiset(rest) == multiset(rest - {x}) + multiset{x};
      rest := rest - {x};
    }
  }

  /** `ORDER BY key DESC`: ties may come in either order. */
  ghost predicate SortedDesc<T>(s: seq<T>, key: T -> int) {
    forall i, j :: 0 <= i < j < |s| ==> key(s[i]) >= key(s[j])
  }

  /** Puts `x` before the first row whose key is not larger than its own. */
  function InsertByKey<T>(s: seq<T>, x: T, key: T -> int): (r: seq<T>)
    ensures multiset(r) == multiset(s) + multiset{x}
    ensures |r| == |s| + 1
    decreases |s|
  {
    if s == [] || key(x) >= key(s[0]) then [x] + s
    else
      var rest := InsertByKey(s[1..], x, key);
      assert s == [s[0]] + s[1..];
      [s[0]] + rest
  }

  lemma {:induction false} InsertByKeySorted<T>(s: seq<T>, x: T, key: T -> int)
    requires SortedDesc(s, key)
    ensures SortedDesc(InsertByKey(s, x, key), key)
    decreases |s|
  {
    if s != [] && key(x) < key(s[0]) {
      var rest := InsertByKey(s[1..], x, key);
      InsertByKeySorted(s[1..], x, key);
      var r := [s[0]] + rest;
      forall k | 0 <= k < |rest| ensures key(s[0]) >= key(rest[k]) {
        assert rest[k] in multiset(rest);
        assert rest[k] in multiset(s[1..]) + multiset{x};
        if rest[k] != x {
          assert rest[k] in s[1..];
          var j :| 0 <= j < |s[1..]| && s[1..][j] == rest[k];
          assert s[j + 1] == rest[k];
        }
      }
      forall i, j | 0 <= i < j < |r| ensures key(r[i]) >= key(r[j]) {
        if i > 0 {
          assert r[i] == rest[i - 1] && r[j] == rest[j - 1];
        } else {
          assert r[j] == rest[j - 1];
        }
      }
    }
  }

  /** The rows of a result set in ORDER BY key DESC order. */
  method OrderByDesc<T>(items: set<T>, key: T -> int) returns (r: seq<T>)
    ensures multiset(r) == multiset(items)
    ensures SortedDesc(r, key)
  {
    r := [];
    var rest := items;
    while rest != {}
      invariant rest <= items
      invariant multiset(r) + multiset(rest) == multiset(items)
      invariant SortedDesc(r, key)
      decreases rest
    {
      var x := Pick(rest);
      InsertByKeySorted(r, x, key);
      r := InsertByKey(r, x, key);
      assert multiset(rest) == multiset(rest - {x}) + multiset{x};
      rest := rest - {x};
    }
  }

  function Min(a: nat, b: nat): nat {
    if a <= b then a else b
  }

  /** `LIMIT limit OFFSET offset` applied to an ordered result. */
  function Page<T>(s: seq<T>, offset: nat, limit: nat): (r: seq<T>)
    ensures |r| <= limit
    ensures |r| == if offset >= |s| then 0 else Min(limit, |s| - offset)
    ensures forall i :: 0 <= i < |r| ==> offset + i < |s| && r[i] == s[offset + i]
  {
    if offset >= |s| then [] else s[offset..Min(offset + limit, |s|)]
  }

  /** Pages 1..n of size `limit`, one after the other. */
  function FirstPages<T>(s: seq<T>, n: nat, limit: nat): seq<T>
  {
    if n == 0 then [] else FirstPages(s, n - 1, limit) + Page(s, (n - 1) * limit, limit)
  }

  /** Reading pages 1..n in turn yields exactly the first n * limit rows: no row is
      skipped or repeated between consecutive pages. */
  lemma {:induction false} FirstPagesArePrefix<T>(s: seq<T>, n: nat, limit: nat)
    ensures FirstPages(s, n, limit) == s[..Min(n * limit, |s|)]
  {
    if n > 0 {
      FirstPagesArePrefix(s, n - 1, limit);
      var offset := (n - 1) * limit;
      NextOffset(n, limit);
      var end := Min(offset + limit, |s|);
      var page := Page(s, offset, limit);
      if offset >= |s| {
        assert page == [];
      } else {
        assert page == s[offset..end];
        assert s[..offset] + s[offset..end] == s[..end];
      }
    }
  }

  /** Page n starts where page n - 1 ended. */
  lemma NextOffset(n: nat, limit: nat)
    requires n > 0
    ensures n * limit == (n - 1) * limit + limit
  {
  }
}
