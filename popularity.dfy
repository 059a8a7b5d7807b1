/** The `findPopular` pipeline of storage/film/InMemoryFilmStorage.java on
    film ids: a stable sort by like count, most liked first, then the first
    `limit` entries. */
module Popularity {
  import opened Common

  /** Like counts along the sequence never increase. */
  predicate NonIncreasing(s: seq<int>, likes: map<int, nat>)
    requires forall i | 0 <= i < |s| :: s[i] in likes
  {
    forall i, j | 0 <= i < j < |s| :: likes[s[i]] >= likes[s[j]]
  }

  /** One step of the sort: `x` goes in front of the first entry with no more
      likes than it has, so entries with equal counts keep their order. */
  function InsertByLikes(x: int, s: seq<int>, likes: map<int, nat>): (r: seq<int>)
    requires x in likes
    requires forall i | 0 <= i < |s| :: s[i] in likes
    ensures multiset(r) == multiset(s) + multiset{x}
    ensures forall i | 0 <= i < |r| :: r[i] in likes
  {
    if s == [] then [x]
    else if likes[x] >= likes[s[0]] then
      var r := [x] + s;
      assert forall i | 0 < i < |r| :: r[i] == s[i - 1];
      r
    else
      var tail := s[1..];
      assert s == [s[0]] + tail;
      var rest := InsertByLikes(x, tail, likes);
      var r := [s[0]] + rest;
      assert forall i | 0 < i < |r| :: r[i] == rest[i - 1];
      r
  }

  /** Inserting into a sequence sorted by likes keeps it sorted. */
  lemma {:induction false} InsertKeepsOrder(x: int, s: seq<int>, likes: map<int, nat>)
    requires x in likes
    requires forall i | 0 <= i < |s| :: s[i] in likes
    requires NonIncreasing(s, likes)
    ensures NonIncreasing(InsertByLikes(x, s, likes), likes)
  {
    var r := InsertByLikes(x, s, likes);
    if s == [] {
    } else if likes[x] >= likes[s[0]] {
      assert forall i | 0 < i < |r| :: r[i] == s[i - 1];
    } else {
      var tail := s[1..];
      assert s == [s[0]] + tail;
      assert forall i | 0 <= i < |tail| :: tail[i] == s[i + 1];
      var rest := InsertByLikes(x, tail, likes);
      InsertKeepsOrder(x, tail, likes);
      assert r == [s[0]] + rest;
      InsertBelow(x, tail, likes, likes[s[0]]);
      assert forall i | 0 < i < |r| :: r[i] == rest[i - 1];
    }
  }

  /** Inserting below a bound on the like counts stays below it. */
  lemma {:induction false} InsertBelow(x: int, s: seq<int>, likes: map<int, nat>, bound: nat)
    requires x in likes && likes[x] <= bound
    requires forall i | 0 <= i < |s| :: s[i] in likes && likes[s[i]] <= bound
    ensures forall i | 0 <= i < |InsertByLikes(x, s, likes)| :: likes[InsertByLikes(x, s, likes)[i]] <= bound
  {
    var r := InsertByLikes(x, s, likes);
    if s != [] {
      if likes[x] >= likes[s[0]] {
        assert forall i | 0 < i < |r| :: r[i] == s[i - 1];
      } else {
        var tail := s[1..];
        assert forall i | 0 <= i < |tail| :: tail[i] == s[i + 1];
        var rest := InsertByLikes(x, tail, likes);
        InsertBelow(x, tail, likes, bound);
        assert forall i | 0 < i < |r| :: r[i] == rest[i - 1];
      }
    }
  }

  /** `sorted(comparator.reversed())`: a stable insertion sort, most liked first. */
  function SortByLikes(s: seq<int>, likes: map<int, nat>): (r: seq<int>)
    requires forall i | 0 <= i < |s| :: s[i] in likes
    ensures multiset(r) == multiset(s)
    ensures |r| == |s|
    ensures forall i | 0 <= i < |r| :: r[i] in likes
    ensures NonIncreasing(r, likes)
  {
    if s == [] then []
    else
      var tail := s[1..];
      assert s == [s[0]] + tail;
      var sortedTail := SortByLikes(tail, likes);
      InsertKeepsOrder(s[0], sortedTail, likes);
      InsertByLikes(s[0], sortedTail, likes)
  }

  /** `limit(n)` keeps the first n entries, in order and without repeats. */
  lemma PrefixKeepsOrder(s: seq<int>, likes: map<int, nat>, n: nat)
    requires forall i | 0 <= i < |s| :: s[i] in likes
    requires NonIncreasing(s, likes)
    requires forall i, j | 0 <= i < j < |s| :: s[i] != s[j]
    requires n <= |s|
    ensures forall i | 0 <= i < n :: s[..n][i] == s[i] && s[i] in likes
    ensures NonIncreasing(s[..n], likes)
    ensures forall i, j | 0 <= i < j < n :: s[..n][i] != s[..n][j]
  {
    var p := s[..n];
    assert forall i | 0 <= i < n :: p[i] == s[i];
  }

  /** `limit(n)` after the sort: no entry left out has more likes than the
      last one kept. */
  lemma CutOffIsLeast(order: seq<int>, likes: map<int, nat>, n: nat)
    requires forall i | 0 <= i < |order| :: order[i] in likes
    requires NonIncreasing(order, likes)
    requires 0 < n <= |order|
    ensures forall j | n <= j < |order| :: likes[order[j]] <= likes[order[n - 1]]
  {
  }

  /** An arrangement of the elements of a duplicate-free sequence is itself
      duplicate-free. */
  lemma {:induction false} PermutationOfIncreasingIsDistinct(a: seq<int>, b: seq<int>)
    requires multiset(a) == multiset(b)
    requires StrictlyIncreasing(b)
    ensures forall i, j | 0 <= i < j < |a| :: a[i] != a[j]
  {
    forall i, j | 0 <= i < j < |a| ensures a[i] != a[j] {
      if a[i] == a[j] {
        var x := a[i];
        assert a == a[..j] + a[j..];
        assert x in multiset(a[..j]) by { assert a[..j][i] == x; }
        assert x in multiset(a[j..]) by { assert a[j..][0] == x; }
        assert multiset(a)[x] == multiset(a[..j])[x] + multiset(a[j..])[x];
        IncreasingCountsOnce(b, x);
        assert false;
      }
    }
  }

  /** In a strictly increasing sequence every value occurs at most once. */
  lemma {:induction false} IncreasingCountsOnce(b: seq<int>, x: int)
    requires StrictlyIncreasing(b)
    ensures multiset(b)[x] <= 1
  {
    if b != [] {
      var tail := b[1..];
      assert b == [b[0]] + tail;
      assert StrictlyIncreasing(tail) by {
        forall i, j | 0 <= i < j < |tail| ensures tail[i] < tail[j] {
          assert tail[i] == b[i + 1] && tail[j] == b[j + 1];
        }
      }
      IncreasingCountsOnce(tail, x);
      if x == b[0] {
        assert x !in tail by {
          forall i | 0 <= i < |tail| ensures tail[i] != x { assert tail[i] == b[i + 1]; }
        }
      }
    }
  }
}
