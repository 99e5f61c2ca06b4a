/**
  `ORDER BY column DESC` and `LIMIT n`, as used by the listing queries. Rows with
  equal rank may come out in any order in the database; this model fixes one.
*/
module Listing {

  predicate SortedDesc<T>(s: seq<T>, rank: T -> int)
  {
    forall i, j :: 0 <= i < j < |s| ==> rank(s[i]) >= rank(s[j])
  }

  /** A list stays ordered when its new head outranks every element of it. */
  lemma SortedCons<T>(h: T, t: seq<T>, rank: T -> int)
    requires SortedDesc(t, rank)
    requires forall k :: 0 <= k < |t| ==> rank(t[k]) <= rank(h)
    ensures SortedDesc([h] + t, rank)
  {
    var r := [h] + t;
    forall i, j | 0 <= i < j < |r| ensures rank(r[i]) >= rank(r[j]) {
      assert r[j] == t[j - 1];
      if i > 0 { assert r[i] == t[i - 1]; }
    }
  }

  /** Place `x` into a list already ordered by descending rank. */
  function InsertDesc<T>(x: T, s: seq<T>, rank: T -> int): (r: seq<T>)
    requires SortedDesc(s, rank)
    ensures SortedDesc(r, rank)
    ensures multiset(r) == multiset(s) + multiset{x}
    ensures |r| == |s| + 1
  {
    if s == [] || rank(x) >= rank(s[0]) then
      SortedCons(x, s, rank);
      [x] + s
    else
      var rest := InsertDesc(x, s[1..], rank);
      assert s == [s[0]] + s[1..];
      assert forall k :: 0 <= k < |rest| ==> rank(rest[k]) <= rank(s[0]) by {
        forall k | 0 <= k < |rest| ensures rank(rest[k]) <= rank(s[0]) {
          assert rest[k] in multiset(rest);
          if rest[k] != x {
            assert rest[k] in multiset(s[1..]);
            var m :| 0 <= m < |s[1..]| && s[1..][m] == rest[k];
            assert s[m + 1] == rest[k];
          }
        }
      }
      SortedCons(s[0], rest, rank);
      [s[0]] + rest
  }

  /** The rows of `s` ordered by descending rank. */
  function SortDesc<T>(s: seq<T>, rank: T -> int): (r: seq<T>)
    ensures SortedDesc(r, rank)
    ensures multiset(r) == multiset(s)
    ensures |r| == |s|
  {
    if s == [] then []
    else
      assert s == [s[0]] + s[1..];
      InsertDesc(s[0], SortDesc(s[1..], rank), rank)
  }

  function Min(a: int, b: int): int { if a < b then a else b }

  /** Cutting a descending reordering of `s`: nothing after the cut outranks anything before it. */
  lemma PrefixOutranks<T>(s: seq<T>, t: seq<T>, rank: T -> int, k: nat)
    requires SortedDesc(t, rank) && multiset(t) == multiset(s) && k <= |t|
    ensures SortedDesc(t[..k], rank)
    ensures multiset(t[..k]) <= multiset(s)
    ensures forall x, i :: x in multiset(s) - multiset(t[..k]) && 0 <= i < k ==> rank(x) <= rank(t[..k][i])
  {
    var p := t[..k];
    assert t == p + t[k..];
    assert multiset(s) - multiset(p) == multiset(t[k..]);
    forall i, j | 0 <= i < j < |p| ensures rank(p[i]) >= rank(p[j]) {
      assert p[i] == t[i] && p[j] == t[j];
    }
    forall x, i | x in multiset(s) - multiset(p) && 0 <= i < k ensures rank(x) <= rank(p[i]) {
      assert x in multiset(t[k..]);
      var j :| 0 <= j < |t[k..]| && t[k..][j] == x;
      assert t[k + j] == x && p[i] == t[i];
    }
  }

  /** `ORDER BY rank DESC LIMIT n`: the `n` highest-ranked rows, best first. */
  function Top<T>(s: seq<T>, rank: T -> int, n: nat): (r: seq<T>)
    ensures |r| == Min(n, |s|)
    ensures SortedDesc(r, rank)
    ensures multiset(r) <= multiset(s)
    ensures forall x, i :: x in multiset(s) - multiset(r) && 0 <= i < |r| ==> rank(x) <= rank(r[i])
  {
    var t := SortDesc(s, rank);
    PrefixOutranks(s, t, rank, Min(n, |s|));
    t[..Min(n, |s|)]
  }

  /** Two positions of a reordering come from two different positions of the original. */
  lemma DistinctOrigins<T>(a: seq<T>, b: seq<T>, i: nat, j: nat)
    requires multiset(a) == multiset(b)
    requires i < j < |b|
    ensures exists p, q :: 0 <= p < |a| && 0 <= q < |a| && p != q && a[p] == b[i] && a[q] == b[j]
  {
    assert b[i] in multiset(a) && b[j] in multiset(a);
    if b[i] == b[j] {
      assert b == b[..j] + [b[j]] + b[j + 1..];
      assert b[i] in b[..j];
      assert multiset(b)[b[i]] >= 2;
      TwiceInSeq(a, b[i]);
    } else {
      var p :| 0 <= p < |a| && a[p] == b[i];
      var q :| 0 <= q < |a| && a[q] == b[j];
      assert p != q;
    }
  }

  /** A reordering of a table with unique keys still has unique keys. */
  lemma PermutationKeepsUniqueKeys<T, K>(a: seq<T>, b: seq<T>, key: T -> K)
    requires multiset(a) == multiset(b)
    requires forall i, j :: 0 <= i < j < |a| ==> key(a[i]) != key(a[j])
    ensures forall i, j :: 0 <= i < j < |b| ==> key(b[i]) != key(b[j])
  {
    forall i, j | 0 <= i < j < |b| ensures key(b[i]) != key(b[j]) {
      DistinctOrigins(a, b, i, j);
      var p, q :| 0 <= p < |a| && 0 <= q < |a| && p != q && a[p] == b[i] && a[q] == b[j];
      if p < q { assert key(a[p]) != key(a[q]); } else { assert key(a[q]) != key(a[p]); }
    }
  }

  /** A value counted twice in a sequence sits at two different positions. */
  lemma {:induction false} TwiceInSeq<T>(a: seq<T>, x: T)
    requires multiset(a)[x] >= 2
    ensures exists p, q :: 0 <= p < q < |a| && a[p] == x && a[q] == x
  {
    assert a == [a[0]] + a[1..];
    if a[0] == x {
      assert multiset(a[1..])[x] >= 1;
      var q :| 0 <= q < |a[1..]| && a[1..][q] == x;
      assert a[q + 1] == x;
    } else {
      TwiceInSeq(a[1..], x);
      var p, q :| 0 <= p < q < |a[1..]| && a[1..][p] == x && a[1..][q] == x;
      assert a[p + 1] == x && a[q + 1] == x;
    }
  }
}
