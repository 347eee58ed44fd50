/**
 * Newest-first ordering, shared by every listing of the backend that sorts
 * on `createdAt` descending (orders, products, a user's recent orders).
 * The timestamp is passed as a function so that one definition serves each
 * entity.
 */
module Recency {

  /** No element is newer than one that comes before it. */
  ghost predicate NewestFirst<T>(s: seq<T>, stamp: T -> int)
  {
    forall i, j :: 0 <= i < j < |s| ==> stamp(s[i]) >= stamp(s[j])
  }

  /** Puts `x` in front of the first element that is strictly older than it. */
  function Insert<T>(x: T, s: seq<T>, stamp: T -> int): (r: seq<T>)
    ensures |r| == |s| + 1
    ensures r[0] == x || (s != [] && r[0] == s[0])
  {
    if s == [] || stamp(x) >= stamp(s[0]) then [x] + s
    else [s[0]] + Insert(x, s[1..], stamp)
  }

  /** Inserting adds exactly the one element. */
  lemma {:induction false} InsertAdds<T>(x: T, s: seq<T>, stamp: T -> int)
    ensures multiset(Insert(x, s, stamp)) == multiset(s) + multiset{x}
  {
    if s != [] && stamp(x) >= stamp(s[0]) {
    } else if s != [] {
      InsertAdds(x, s[1..], stamp);
      assert s == [s[0]] + s[1..];
    }
  }

  /** Inserting into a newest-first sequence keeps it newest first. */
  lemma {:induction false} InsertKeepsOrder<T>(x: T, s: seq<T>, stamp: T -> int)
    requires NewestFirst(s, stamp)
    ensures NewestFirst(Insert(x, s, stamp), stamp)
  {
    if s == [] || stamp(x) >= stamp(s[0]) {
      InFrontOfNewer(x, s, stamp);
    } else {
      TailNewest(s, stamp);
      InsertKeepsOrder(x, s[1..], stamp);
      InFrontOfNewer(s[0], Insert(x, s[1..], stamp), stamp);
    }
  }

  /** The tail of a newest-first sequence is newest first, and its head is no newer than the whole's. */
  lemma TailNewest<T>(s: seq<T>, stamp: T -> int)
    requires NewestFirst(s, stamp) && s != []
    ensures NewestFirst(s[1..], stamp)
    ensures |s| > 1 ==> stamp(s[1]) <= stamp(s[0])
  {
    var t := s[1..];
    forall i, j | 0 <= i < j < |t| ensures stamp(t[i]) >= stamp(t[j]) {
      assert t[i] == s[i + 1] && t[j] == s[j + 1];
    }
  }

  /** An element no older than the head of a newest-first sequence may go in front of it. */
  lemma InFrontOfNewer<T>(h: T, rest: seq<T>, stamp: T -> int)
    requires NewestFirst(rest, stamp) && (rest != [] ==> stamp(rest[0]) <= stamp(h))
    ensures NewestFirst([h] + rest, stamp)
  {
    var s := [h] + rest;
    forall i, j | 0 <= i < j < |s| ensures stamp(s[i]) >= stamp(s[j]) {
      if i > 0 {
        assert s[i] == rest[i - 1] && s[j] == rest[j - 1];
      } else {
        assert s[j] == rest[j - 1];
        assert stamp(rest[j - 1]) <= stamp(rest[0]);
      }
    }
  }

  /** The elements of `s`, rearranged newest first. */
  function SortNewestFirst<T>(s: seq<T>, stamp: T -> int): (r: seq<T>)
    ensures multiset(r) == multiset(s)
    ensures NewestFirst(r, stamp)
  {
    if s == [] then []
    else
      assert s == [s[0]] + s[1..];
      var sorted := SortNewestFirst(s[1..], stamp);
      InsertAdds(s[0], sorted, stamp);
      InsertKeepsOrder(s[0], sorted, stamp);
      Insert(s[0], sorted, stamp)
  }

  /** In a newest-first sequence every element of a prefix is at least as new as every later one. */
  lemma {:induction false} PrefixIsNewest<T>(s: seq<T>, stamp: T -> int, n: nat, x: T, y: T)
    requires NewestFirst(s, stamp) && n <= |s|
    requires x in s[..n] && y in s && y !in s[..n]
    ensures stamp(y) <= stamp(x)
  {
    var i :| 0 <= i < n && s[..n][i] == x;
    assert s == s[..n] + s[n..];
    assert y in s[n..];
    var j :| 0 <= j < |s| - n && s[n..][j] == y;
    assert stamp(s[i]) >= stamp(s[n + j]);
  }

  /** A prefix of a newest-first sequence is newest first and holds only elements of the whole. */
  lemma NewestPrefixOf<T>(s: seq<T>, stamp: T -> int, n: nat)
    requires NewestFirst(s, stamp) && n <= |s|
    ensures NewestFirst(s[..n], stamp)
    ensures forall x :: x in s[..n] ==> x in s
  {
    var p := s[..n];
    forall i, j | 0 <= i < j < |p| ensures stamp(p[i]) >= stamp(p[j]) {
      assert p[i] == s[i] && p[j] == s[j];
    }
    forall x | x in p ensures x in s {
      var i :| 0 <= i < n && p[i] == x;
      assert s[i] == x;
    }
  }

  /** A prefix holds no element more often than the whole sequence does. */
  lemma PrefixSubMultiset<T>(s: seq<T>, n: nat)
    requires n <= |s|
    ensures multiset(s[..n]) <= multiset(s)
  {
    assert s == s[..n] + s[n..];
  }

  /** Two sequences with the same multiset have the same length and the same members. */
  lemma SameMembers<T>(a: seq<T>, b: seq<T>)
    requires multiset(a) == multiset(b)
    ensures |a| == |b|
    ensures forall x :: x in a <==> x in b
  {
    assert |a| == |multiset(a)| == |multiset(b)| == |b|;
    forall x ensures x in a <==> x in b {
      assert x in a <==> x in multiset(a);
      assert x in b <==> x in multiset(b);
    }
  }
}
