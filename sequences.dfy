/** Generic operations on sequences that stand for database queries:
    `Filter` is a `.filter(...)`/`compactMap` over the rows of a table (which keeps their order),
    `FindIndex` is a `find(id)` that gives the position of the first matching row. */
module Sequences {
  import opened Wrappers

  /** The elements of `s` that satisfy `p`, in their original order. */
  function Filter<T(!new)>(p: T -> bool, s: seq<T>): (r: seq<T>)
    ensures |r| <= |s|
  {
    if s == [] then []
    else if p(s[0]) then [s[0]] + Filter(p, s[1..])
    else Filter(p, s[1..])
  }

  /** Each element keeps its multiplicity if it passes the filter and disappears otherwise. */
  lemma {:induction false} FilterMultiset<T(!new)>(p: T -> bool, s: seq<T>)
    ensures forall x :: multiset(Filter(p, s))[x] == if p(x) then multiset(s)[x] else 0
  {
    if s != [] {
      FilterMultiset(p, s[1..]);
      assert s == [s[0]] + s[1..];
    }
  }

  /** The filter keeps exactly the elements that satisfy the predicate. */
  lemma FilterMembers<T(!new)>(p: T -> bool, s: seq<T>)
    ensures forall x :: x in Filter(p, s) <==> x in s && p(x)
  {
    FilterMultiset(p, s);
    forall x ensures x in Filter(p, s) <==> x in s && p(x) {
      assert x in Filter(p, s) <==> multiset(Filter(p, s))[x] > 0;
      assert x in s <==> multiset(s)[x] > 0;
    }
  }

  /** Filtering distributes over concatenation: the order of the rows is kept. */
  lemma {:induction false} FilterConcat<T(!new)>(p: T -> bool, a: seq<T>, b: seq<T>)
    ensures Filter(p, a + b) == Filter(p, a) + Filter(p, b)
  {
    if a == [] {
      assert a + b == b;
    } else {
      assert (a + b)[1..] == a[1..] + b;
      FilterConcat(p, a[1..], b);
    }
  }

  /** Filtering twice is filtering once by the conjunction. */
  lemma {:induction false} FilterTwice<T(!new)>(p: T -> bool, q: T -> bool, pq: T -> bool, s: seq<T>)
    requires forall x :: pq(x) == (p(x) && q(x))
    ensures Filter(q, Filter(p, s)) == Filter(pq, s)
  {
    if s != [] {
      FilterTwice(p, q, pq, s[1..]);
    }
  }

  /** A filter that every element passes keeps the whole sequence. */
  lemma {:induction false} FilterAll<T(!new)>(p: T -> bool, s: seq<T>)
    requires forall x :: x in s ==> p(x)
    ensures Filter(p, s) == s
  {
    if s != [] {
      FilterAll(p, s[1..]);
    }
  }

  /** Appending one element after a concatenation. */
  lemma AppendOne<T>(a: seq<T>, b: seq<T>, x: T)
    ensures (a + b) + [x] == a + (b + [x])
  {
  }

  /** No two elements of `s` share a key (a primary key). */
  ghost predicate UniqueKeys<T, K>(key: T -> K, s: seq<T>) {
    forall i, j :: 0 <= i < |s| && 0 <= j < |s| && key(s[i]) == key(s[j]) ==> i == j
  }

  /** A filtered table keeps its keys unique. */
  lemma {:induction false} FilterUniqueKeys<T(!new), K>(p: T -> bool, key: T -> K, s: seq<T>)
    requires UniqueKeys(key, s)
    ensures UniqueKeys(key, Filter(p, s))
  {
    if s != [] {
      assert UniqueKeys(key, s[1..]) by {
        forall i, j | 0 <= i < |s[1..]| && 0 <= j < |s[1..]| && key(s[1..][i]) == key(s[1..][j])
          ensures i == j
        {
          assert key(s[i + 1]) == key(s[j + 1]);
        }
      }
      FilterUniqueKeys(p, key, s[1..]);
      var rest := Filter(p, s[1..]);
      FilterMembers(p, s[1..]);
      if p(s[0]) {
        forall x | x in rest ensures key(x) != key(s[0]) {
          assert x in s[1..];
          var j :| 0 <= j < |s[1..]| && s[1..][j] == x;
          assert s[j + 1] == x;
        }
        var r := [s[0]] + rest;
        forall i, j | 0 <= i < |r| && 0 <= j < |r| && key(r[i]) == key(r[j]) ensures i == j {
          if i != 0 && j != 0 {
            assert rest[i - 1] == r[i] && rest[j - 1] == r[j];
          }
        }
      }
    }
  }

  /** Appending a row whose key no stored row has keeps the keys unique. */
  lemma AppendFreshKey<T, K>(key: T -> K, s: seq<T>, x: T)
    requires UniqueKeys(key, s)
    requires forall y :: y in s ==> key(y) != key(x)
    ensures UniqueKeys(key, s + [x])
  {
    var t := s + [x];
    assert forall i :: 0 <= i < |s| ==> key(t[i]) != key(x);
    forall i, j | 0 <= i < |t| && 0 <= j < |t| && key(t[i]) == key(t[j]) ensures i == j {
      if i < |s| && j < |s| {
        assert t[i] == s[i] && t[j] == s[j];
      }
    }
  }

  /** Replacing a row by one with the same key keeps the keys unique. */
  lemma ReplaceSameKey<T, K>(key: T -> K, s: seq<T>, i: nat, x: T)
    requires UniqueKeys(key, s) && i < |s| && key(x) == key(s[i])
    ensures UniqueKeys(key, s[i := x])
  {
    var t := s[i := x];
    forall a, b | 0 <= a < |t| && 0 <= b < |t| && key(t[a]) == key(t[b]) ensures a == b {
      assert key(t[a]) == key(s[a]) && key(t[b]) == key(s[b]);
    }
  }

  /** The position of the first element of `s` that satisfies `p`, if any. */
  function FindIndex<T>(p: T -> bool, s: seq<T>): (r: Option<nat>)
    ensures r.Some? ==> r.value < |s| && p(s[r.value]) && forall k :: 0 <= k < r.value ==> !p(s[k])
    ensures r.None? <==> forall k :: 0 <= k < |s| ==> !p(s[k])
  {
    if s == [] then None
    else if p(s[0]) then Some(0)
    else match FindIndex(p, s[1..])
      case None => None
      case Some(i) => Some(i + 1)
  }

  /** The position of the last element of `s` that satisfies `p`, if any. */
  function FindLastIndex<T>(p: T -> bool, s: seq<T>): (r: Option<nat>)
    ensures r.Some? ==> r.value < |s| && p(s[r.value]) && forall k :: r.value < k < |s| ==> !p(s[k])
    ensures r.None? <==> forall k :: 0 <= k < |s| ==> !p(s[k])
  {
    if s == [] then None
    else if p(s[|s| - 1]) then Some(|s| - 1)
    else FindLastIndex(p, s[..|s| - 1])
  }
}
