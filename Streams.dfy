/** `IntStream.distinct()` on an ordered stream: it keeps the first
    occurrence of each value and drops every later repeat, preserving
    encounter order. */
module Streams {

  ghost predicate NoDuplicates(s: seq<int>) {
    forall i, j :: 0 <= i < j < |s| ==> s[i] != s[j]
  }

  /** Position of the first occurrence of `x` in `s`, or `|s|` when `x` does
      not occur. */
  function IndexOf(s: seq<int>, x: int): (k: nat)
    ensures k <= |s|
    ensures k < |s| <==> x in s
    ensures k < |s| ==> s[k] == x
    ensures x !in s[..k]
  {
    if s == [] then 0
    else if s[0] == x then 0
    else
      assert s[1..][..IndexOf(s[1..], x)] == s[1..IndexOf(s[1..], x) + 1];
      1 + IndexOf(s[1..], x)
  }

  /** `r` lists values of `s` in the order in which they first occur in `s`. */
  ghost predicate InFirstOccurrenceOrder(s: seq<int>, r: seq<int>) {
    forall i, j :: 0 <= i < j < |r| ==> IndexOf(s, r[i]) < IndexOf(s, r[j])
  }

  /** The stream after `distinct()`: the distinct values of the prefix seen so
      far, plus the last element when it has not been seen before. */
  function Distinct(s: seq<int>): seq<int>
  {
    if s == [] then []
    else
      var seen := Distinct(s[..|s| - 1]);
      if s[|s| - 1] in seen then seen else seen + [s[|s| - 1]]
  }

  /** Nothing is invented and nothing is dropped. */
  lemma {:induction false} DistinctElements(s: seq<int>)
    ensures forall x :: x in Distinct(s) <==> x in s
  {
    if s != [] {
      var p := s[..|s| - 1];
      DistinctElements(p);
      assert s == p + [s[|s| - 1]];
    }
  }

  /** No value is kept twice. */
  lemma {:induction false} DistinctNoDuplicates(s: seq<int>)
    ensures NoDuplicates(Distinct(s))
  {
    if s != [] {
      DistinctNoDuplicates(s[..|s| - 1]);
    }
  }

  /** Extending the stream only ever appends: an earlier output is a prefix of
      a later one. */
  lemma {:induction false} DistinctPrefix(s: seq<int>, t: seq<int>)
    ensures Distinct(s) <= Distinct(s + t)
    decreases |t|
  {
    if t != [] {
      var u := s + t[..|t| - 1];
      DistinctPrefix(s, t[..|t| - 1]);
      assert (s + t)[..|s + t| - 1] == u;
    } else {
      assert s + t == s;
    }
  }

  lemma IndexOfInPrefix(s: seq<int>, n: nat, x: int)
    requires n <= |s| && x in s[..n]
    ensures IndexOf(s, x) == IndexOf(s[..n], x)
  {
    var k := IndexOf(s[..n], x);
    assert s[..n][..k] == s[..k];
  }

  /** The kept values appear in the order of their first occurrence. */
  lemma {:induction false} DistinctOrder(s: seq<int>)
    ensures InFirstOccurrenceOrder(s, Distinct(s))
  {
    if s != [] {
      var n := |s| - 1;
      var p := s[..n];
      var dp := Distinct(p);
      var d := Distinct(s);
      DistinctOrder(p);
      DistinctElements(p);
      assert d == dp || (d == dp + [s[n]] && s[n] !in dp);
      forall i, j | 0 <= i < j < |d|
        ensures IndexOf(s, d[i]) < IndexOf(s, d[j])
      {
        assert d[i] == dp[i] && dp[i] in dp;
        assert dp[i] in p;
        assert d[i] in s[..n];
        IndexOfInPrefix(s, n, d[i]);
        if j < |dp| {
          assert d[j] == dp[j] && dp[j] in dp;
          assert d[j] in s[..n];
          IndexOfInPrefix(s, n, d[j]);
        } else {
          assert d[j] == s[n] && s[n] !in p;
          assert IndexOf(s, d[j]) == n;
        }
      }
    }
  }

  /** A stream without repeats passes through unchanged; in particular
      `Distinct` is idempotent. */
  lemma {:induction false} DistinctOfNoDuplicates(s: seq<int>)
    requires NoDuplicates(s)
    ensures Distinct(s) == s
  {
    if s != [] {
      var p := s[..|s| - 1];
      DistinctOfNoDuplicates(p);
      assert s[|s| - 1] !in p;
      assert s == p + [s[|s| - 1]];
    }
  }

  lemma DistinctIdempotent(s: seq<int>)
    ensures Distinct(Distinct(s)) == Distinct(s)
  {
    DistinctNoDuplicates(s);
    DistinctOfNoDuplicates(Distinct(s));
  }

  /** Dropping the last element keeps a listing repeat-free and ordered, and
      removes exactly that element. */
  lemma DropLastListing(s: seq<int>, r: seq<int>)
    requires r != [] && NoDuplicates(r) && InFirstOccurrenceOrder(s, r)
    ensures NoDuplicates(r[..|r| - 1]) && InFirstOccurrenceOrder(s, r[..|r| - 1])
    ensures forall x :: x in r[..|r| - 1] <==> x in r && x != r[|r| - 1]
  {
    var r' := r[..|r| - 1];
    assert r == r' + [r[|r| - 1]];
    forall x | x in r' ensures x != r[|r| - 1] {
      var i :| 0 <= i < |r'| && r'[i] == x;
      assert r[i] != r[|r| - 1];
    }
  }

  /** In a repeat-free listing in first-occurrence order, the last element is
      the one that occurs latest in `s`. */
  lemma LastIsLatest(s: seq<int>, r: seq<int>, x: int)
    requires r != [] && InFirstOccurrenceOrder(s, r) && x in r
    ensures IndexOf(s, x) <= IndexOf(s, r[|r| - 1])
  {
    var i :| 0 <= i < |r| && r[i] == x;
    if i < |r| - 1 {
      assert IndexOf(s, r[i]) < IndexOf(s, r[|r| - 1]);
    }
  }

  lemma HeadIsMember(s: seq<int>)
    ensures s != [] ==> s[0] in s
  {
  }

  /** Two repeat-free sequences over the same values of `s`, both in
      first-occurrence order, are equal. */
  lemma {:induction false} OrderedListingUnique(s: seq<int>, r: seq<int>, d: seq<int>)
    requires NoDuplicates(r) && NoDuplicates(d)
    requires forall x :: x in r ==> x in s
    requires forall x :: x in r <==> x in d
    requires InFirstOccurrenceOrder(s, r) && InFirstOccurrenceOrder(s, d)
    ensures r == d
    decreases |r|
  {
    if r == [] {
      HeadIsMember(d);
    } else {
      assert d != [] by { assert r[0] in r; }
      var m, m' := r[|r| - 1], d[|d| - 1];
      assert m in d && m' in r;
      LastIsLatest(s, r, m');
      LastIsLatest(s, d, m);
      assert m == m' by {
        assert m in s && m' in s;
        assert s[IndexOf(s, m)] == m && s[IndexOf(s, m')] == m';
      }
      var r', d' := r[..|r| - 1], d[..|d| - 1];
      DropLastListing(s, r);
      DropLastListing(s, d);
      forall x ensures x in r' <==> x in d' {
        assert x in r <==> x in d;
      }
      forall x | x in r' ensures x in s {
        assert x in r;
      }
      OrderedListingUnique(s, r', d');
      assert r == r' + [m] && d == d' + [m'];
    }
  }

  /** `Distinct(s)` is the one and only repeat-free listing of the values of
      `s` in first-occurrence order. */
  lemma DistinctCharacterized(s: seq<int>, r: seq<int>)
    ensures r == Distinct(s) <==>
      NoDuplicates(r) && (forall x :: x in r <==> x in s) && InFirstOccurrenceOrder(s, r)
  {
    DistinctElements(s);
    DistinctNoDuplicates(s);
    DistinctOrder(s);
    if NoDuplicates(r) && (forall x :: x in r <==> x in s) && InFirstOccurrenceOrder(s, r) {
      OrderedListingUnique(s, r, Distinct(s));
    }
  }
}
