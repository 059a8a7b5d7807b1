/** Shared vocabulary: nullable values, the application's exception kinds,
    Java's blank-string test and the "max + 1" id allocation every store uses. */
module Common {

  /** A Java reference that may be null. */
  datatype Option<+T> = None | Some(value: T)

  /** The application's exception classes (NotFoundException,
      ConditionsNotMetException, DuplicatedDataException). */
  datatype Error = NotFound | ConditionsNotMet | DuplicatedData

  /** A value, or the exception a call throws instead. */
  datatype Result<+T> = Ok(value: T) | Err(error: Error)

  /** `Optional.ofNullable(m.get(k))` on a map that holds no null values. */
  function Get<K, V>(m: map<K, V>, k: K): (r: Option<V>)
    ensures r.Some? <==> k in m
    ensures r.Some? ==> r.value == m[k]
  {
    if k in m then Some(m[k]) else None
  }

  /** `Character.isWhitespace`: the Unicode space, line and paragraph separators
      other than the three no-break spaces, plus the ASCII controls
      U+0009..U+000D and U+001C..U+001F. */
  predicate IsWhitespace(c: char) {
    || '\U{0009}' <= c <= '\U{000D}'
    || '\U{001C}' <= c <= '\U{001F}'
    || c == '\U{0020}' || c == '\U{1680}'
    || '\U{2000}' <= c <= '\U{2006}'
    || '\U{2008}' <= c <= '\U{200A}'
    || c == '\U{2028}' || c == '\U{2029}'
    || c == '\U{205F}' || c == '\U{3000}'
  }

  /** `String.isBlank`: empty, or whitespace only. */
  predicate IsBlank(s: string) {
    forall i | 0 <= i < |s| :: IsWhitespace(s[i])
  }

  /** The `s != null && !s.isBlank()` guard of the reference-data updates. */
  predicate HasText(s: Option<string>) {
    s.Some? && !IsBlank(s.value)
  }

  /** The null-preserving field merge of the update utilities: the new
      value when it is non-null, the current one otherwise. */
  function Prefer<T>(upd: Option<T>, cur: Option<T>): (r: Option<T>)
    ensures upd.Some? ==> r == upd
    ensures upd.None? ==> r == cur
  {
    if upd.Some? then upd else cur
  }

  lemma NonEmptyHasElement(s: set<int>)
    requires s != {}
    ensures exists x :: x in s
  {
    if forall x :: x !in s { assert false; }
  }

  /** A largest element of a non-empty finite set of integers, by induction
      on the set. */
  lemma {:induction false} LargestOf(s: set<int>) returns (m: int)
    requires s != {}
    ensures m in s && forall k | k in s :: k <= m
    decreases |s|
  {
    NonEmptyHasElement(s);
    var x :| x in s;
    var rest := s - {x};
    if rest == {} {
      m := x;
      forall k | k in s ensures k <= m { assert k !in rest; }
    } else {
      var r := LargestOf(rest);
      m := if r < x then x else r;
      forall k | k in s ensures k <= m { if k != x { assert k in rest; } }
    }
  }

  /** A smallest element of a non-empty finite set of integers. */
  lemma {:induction false} SmallestOf(s: set<int>) returns (m: int)
    requires s != {}
    ensures m in s && forall k | k in s :: m <= k
    decreases |s|
  {
    NonEmptyHasElement(s);
    var x :| x in s;
    var rest := s - {x};
    if rest == {} {
      m := x;
      forall k | k in s ensures m <= k { assert k !in rest; }
    } else {
      var r := SmallestOf(rest);
      m := if x < r then x else r;
      forall k | k in s ensures m <= k { if k != x { assert k in rest; } }
    }
  }

  lemma MaxExists(s: set<int>)
    requires s != {}
    ensures exists m :: m in s && forall k | k in s :: k <= m
  {
    var m := LargestOf(s);
  }

  lemma MinExists(s: set<int>)
    requires s != {}
    ensures exists m :: m in s && forall k | k in s :: m <= k
  {
    var m := SmallestOf(s);
  }

  /** `reduce(max)` over a non-empty key set. */
  function Max(s: set<int>): (m: int)
    requires s != {}
    ensures m in s && forall k | k in s :: k <= m
  {
    MaxExists(s);
    var m :| m in s && forall k | k in s :: k <= m; m
  }

  function Min(s: set<int>): (m: int)
    requires s != {}
    ensures m in s && forall k | k in s :: m <= k
  {
    MinExists(s);
    var m :| m in s && forall k | k in s :: m <= k; m
  }

  /** The private `getNextId` of every store: the largest key plus one,
      or 1 for an empty store (`reduce(max).orElse(0)` then `++`). */
  function NextId(keys: set<int>): (r: int)
    ensures forall k | k in keys :: k < r
    ensures r !in keys
    ensures keys == {} ==> r == 1
    ensures keys != {} ==> r - 1 in keys
  {
    if keys == {} then 1 else Max(keys) + 1
  }

  predicate StrictlyIncreasing(s: seq<int>) {
    forall i, j | 0 <= i < j < |s| :: s[i] < s[j]
  }

  /** The keys of a map in ascending order: the iteration order of a TreeMap,
      and the order this model fixes for a HashMap, whose order is unspecified. */
  function SortedKeys(s: set<int>): (r: seq<int>)
    ensures StrictlyIncreasing(r)
    ensures |r| == |s|
    ensures forall k :: k in r <==> k in s
    decreases s
  {
    if s == {} then []
    else
      var m := Min(s);
      var rest := SortedKeys(s - {m});
      assert forall k | k in rest :: m < k;
      [m] + rest
  }

  /** A strictly increasing sequence of hi - lo + 1 integers drawn from
      lo .. hi lists exactly lo, lo + 1, .., hi. */
  lemma {:induction false} IncreasingFillsRange(ks: seq<int>, lo: int, hi: int)
    requires StrictlyIncreasing(ks)
    requires forall i | 0 <= i < |ks| :: lo <= ks[i] <= hi
    requires |ks| == hi - lo + 1
    ensures forall i | 0 <= i < |ks| :: ks[i] == lo + i
  {
    if |ks| > 1 {
      var tail := ks[1..];
      assert forall i | 0 <= i < |tail| :: tail[i] == ks[i + 1];
      assert forall i | 0 <= i < |tail| :: lo + 1 <= tail[i] <= hi by {
        forall i | 0 <= i < |tail| ensures lo + 1 <= tail[i] { assert ks[0] < ks[i + 1]; }
      }
      IncreasingFillsRange(tail, lo + 1, hi);
      forall i | 0 <= i < |ks| ensures ks[i] == lo + i {
        if i > 0 { assert ks[i] == tail[i - 1]; } else { assert ks[0] < ks[1]; }
      }
    }
  }

  /** The ascending keys of a map whose key set is 1 .. n are 1, 2, .., n. */
  lemma SortedKeysOfRange(s: set<int>, n: nat)
    requires forall k :: k in s <==> 1 <= k <= n
    requires |s| == n
    ensures |SortedKeys(s)| == n
    ensures forall i | 0 <= i < n :: SortedKeys(s)[i] == i + 1
  {
    var ks := SortedKeys(s);
    assert forall i | 0 <= i < |ks| :: ks[i] in s;
    IncreasingFillsRange(ks, 1, n);
  }

  /** On the key set 1 .. n the next id is n + 1. */
  lemma NextIdOfRange(s: set<int>, n: nat)
    requires forall k :: k in s <==> 1 <= k <= n
    requires n >= 1
    ensures NextId(s) == n + 1
  {
    assert n in s;
  }

  /** The values stored under `ids`, in that order: `ids.stream().map(m::get)`
      over ids that are all keys. */
  function ValuesAt<V>(m: map<int, V>, ids: seq<int>): (r: seq<V>)
    requires forall i | 0 <= i < |ids| :: ids[i] in m
    ensures |r| == |ids|
    ensures forall i | 0 <= i < |r| :: r[i] == m[ids[i]]
  {
    seq(|ids|, i requires 0 <= i < |ids| => m[ids[i]])
  }

  /** The values of a map in ascending key order, as a TreeMap yields them. */
  function ValuesInOrder<V>(m: map<int, V>): (r: seq<V>)
    ensures |r| == |m|
    ensures forall i | 0 <= i < |r| :: SortedKeys(m.Keys)[i] in m && r[i] == m[SortedKeys(m.Keys)[i]]
  {
    var ks := SortedKeys(m.Keys);
    assert forall i | 0 <= i < |ks| :: ks[i] in m;
    seq(|ks|, i requires 0 <= i < |ks| => m[ks[i]])
  }

  /** Each stored value appears in `ValuesInOrder`, and nothing else does. */
  lemma ValuesInOrderCovers<V>(m: map<int, V>)
    ensures forall i | 0 <= i < |ValuesInOrder(m)| :: ValuesInOrder(m)[i] in m.Values
    ensures forall k | k in m :: m[k] in ValuesInOrder(m)
  {
    var ks := SortedKeys(m.Keys);
    var r := ValuesInOrder(m);
    forall k | k in m ensures m[k] in r {
      var i :| 0 <= i < |ks| && ks[i] == k;
      assert r[i] == m[k];
    }
  }
}
