/** The LINQ operators the services apply to their lists: `Where`,
    `FirstOrDefault`, and the `OrderBy`/`OrderByDescending`/`ThenBy`
    family, modelled as functions on sequences with their laws. */
module Sequences {
  import opened Common

  /** The elements of `s` that satisfy `p`, in their original order (`Where`). */
  function Filter<T(!new)>(s: seq<T>, p: T -> bool): (r: seq<T>)
    ensures |r| <= |s|
    decreases |s|
  {
    if s == [] then []
    else Filter(s[..|s| - 1], p) + (if p(s[|s| - 1]) then [s[|s| - 1]] else [])
  }

  /** `Where` keeps exactly the elements that satisfy the predicate. */
  lemma {:induction false} FilterMembers<T(!new)>(s: seq<T>, p: T -> bool)
    ensures forall x :: x in Filter(s, p) <==> x in s && p(x)
    decreases |s|
  {
    if s != [] {
      var s', y := s[..|s| - 1], s[|s| - 1];
      FilterMembers(s', p);
      assert s == s' + [y];
    }
  }

  /** `Where` distributes over concatenation. */
  lemma {:induction false} FilterConcat<T(!new)>(a: seq<T>, b: seq<T>, p: T -> bool)
    ensures Filter(a + b, p) == Filter(a, p) + Filter(b, p)
    decreases |b|
  {
    if b == [] {
      assert a + b == a;
    } else {
      var b' := b[..|b| - 1];
      assert (a + b)[..|a + b| - 1] == a + b';
      FilterConcat(a, b', p);
    }
  }

  /** A filtered list holds no element more often than the list. */
  lemma {:induction false} FilterSubMultiset<T(!new)>(s: seq<T>, p: T -> bool)
    ensures multiset(Filter(s, p)) <= multiset(s)
    decreases |s|
  {
    if s != [] {
      var s' := s[..|s| - 1];
      assert s == s' + [s[|s| - 1]];
      FilterSubMultiset(s', p);
    }
  }

  /** Filtering with a predicate every element meets changes nothing. */
  lemma {:induction false} FilterAll<T(!new)>(s: seq<T>, p: T -> bool)
    requires forall i :: 0 <= i < |s| ==> p(s[i])
    ensures Filter(s, p) == s
    decreases |s|
  {
    if s != [] {
      assert s == s[..|s| - 1] + [s[|s| - 1]];
      FilterAll(s[..|s| - 1], p);
    }
  }

  /** Filtering with a predicate no element meets leaves nothing. */
  lemma {:induction false} FilterNone<T(!new)>(s: seq<T>, p: T -> bool)
    requires forall i :: 0 <= i < |s| ==> !p(s[i])
    ensures Filter(s, p) == []
    decreases |s|
  {
    if s != [] {
      FilterNone(s[..|s| - 1], p);
    }
  }

  /** Filtering twice, where the second predicate implies the first, is
      filtering once with the second. */
  lemma {:induction false} FilterFilter<T(!new)>(s: seq<T>, p: T -> bool, q: T -> bool)
    requires forall x :: x in s && q(x) ==> p(x)
    ensures Filter(Filter(s, p), q) == Filter(s, q)
    decreases |s|
  {
    if s != [] {
      var s', x := s[..|s| - 1], s[|s| - 1];
      FilterFilter(s', p, q);
      var tail := if p(x) then [x] else [];
      FilterConcat(Filter(s', p), tail, q);
    }
  }

  /** Filtering twice, where no element meeting the second predicate meets
      the first, leaves nothing. */
  lemma FilterFilterDisjoint<T(!new)>(s: seq<T>, p: T -> bool, q: T -> bool)
    requires forall x :: x in s && q(x) ==> !p(x)
    ensures Filter(Filter(s, p), q) == []
  {
    var f := Filter(s, p);
    FilterMembers(s, p);
    FilterNone(f, q);
  }

  /** Removing the one element at index `i` is filtering with a predicate that
      only that element fails (`List.Remove` on a list of unique keys). */
  lemma {:induction false} RemoveAtIsFilter<T(!new)>(s: seq<T>, i: nat, p: T -> bool)
    requires i < |s| && !p(s[i])
    requires forall j :: 0 <= j < |s| && j != i ==> p(s[j])
    ensures s[..i] + s[i + 1..] == Filter(s, p)
    decreases |s|
  {
    var s', x := s[..|s| - 1], s[|s| - 1];
    if i == |s| - 1 {
      FilterAll(s', p);
    } else {
      RemoveAtIsFilter(s', i, p);
      assert s[i + 1..] == s'[i + 1..] + [x];
      assert s[..i] == s'[..i];
    }
  }

  /** The index of the first element that satisfies `p` (`FirstOrDefault`). */
  function IndexWhere<T(!new)>(s: seq<T>, p: T -> bool): (r: Option<nat>)
    ensures r.Some? ==> r.value < |s| && p(s[r.value])
    ensures r.Some? ==> forall j :: 0 <= j < r.value ==> !p(s[j])
    ensures r.None? <==> forall j :: 0 <= j < |s| ==> !p(s[j])
  {
    if s == [] then None
    else if p(s[0]) then Some(0)
    else
      match IndexWhere(s[1..], p)
      case None => None
      case Some(k) => Some(k + 1)
  }

  /** No element occurs twice. */
  ghost predicate Distinct<T(!new)>(s: seq<T>) {
    forall i, j :: 0 <= i < j < |s| ==> s[i] != s[j]
  }

  /** No two elements share a key (a list of records with unique ids). */
  ghost predicate UniqueBy<T(!new), K>(s: seq<T>, f: T -> K) {
    forall i, j :: 0 <= i < j < |s| ==> f(s[i]) != f(s[j])
  }

  /** A subsequence of a list with unique keys has unique keys. */
  lemma {:induction false} FilterUniqueBy<T(!new), K>(s: seq<T>, p: T -> bool, f: T -> K)
    requires UniqueBy(s, f)
    ensures UniqueBy(Filter(s, p), f)
    decreases |s|
  {
    if s != [] {
      var s', x := s[..|s| - 1], s[|s| - 1];
      FilterUniqueBy(s', p, f);
      var r' := Filter(s', p);
      FilterMembers(s', p);
      forall i | 0 <= i < |r'| ensures f(r'[i]) != f(x) {
        assert r'[i] in s';
        var k :| 0 <= k < |s'| && s'[k] == r'[i];
        assert s[k] == s'[k];
      }
    }
  }

  /** A sequence without repetitions whose only element is `x` is `[x]`. */
  lemma DistinctSingleton<T(!new)>(s: seq<T>, x: T)
    requires Distinct(s)
    ensures (forall y :: y in s <==> y == x) ==> s == [x]
  {
    if |s| > 1 {
      assert s[1] in s && s[0] != s[1];
    }
    if forall y :: y in s <==> y == x {
      assert x in s;
      assert s[0] in s;
    }
  }

  /** A sequence with no elements is empty. */
  lemma NoMembersEmpty<T(!new)>(s: seq<T>)
    ensures (forall y :: y !in s) ==> s == []
  {
    if |s| > 0 {
      assert s[0] in s;
    }
  }

  /** The sort key of an `OrderByDescending(primary).ThenByDescending(secondary)`
      chain; an ascending `OrderBy(k)` uses the key `-k`. */
  datatype SortKey = SortKey(primary: int, secondary: int)

  /** `a` is placed strictly before `b`: a larger primary key, or an equal
      primary key and a larger secondary key. */
  predicate KeyBefore(a: SortKey, b: SortKey) {
    a.primary > b.primary || (a.primary == b.primary && a.secondary > b.secondary)
  }

  /** No element is placed after one that should follow it. */
  ghost predicate Ordered<T(!new)>(s: seq<T>, key: T -> SortKey) {
    forall i, j :: 0 <= i < j < |s| ==> !KeyBefore(key(s[j]), key(s[i]))
  }

  /** Inserts `x` after every element it does not have to precede. */
  function Insert<T(!new)>(s: seq<T>, x: T, key: T -> SortKey): (r: seq<T>)
    ensures multiset(r) == multiset(s) + multiset{x}
    decreases |s|
  {
    if s == [] || !KeyBefore(key(x), key(s[|s| - 1])) then s + [x]
    else
      assert s == s[..|s| - 1] + [s[|s| - 1]];
      Insert(s[..|s| - 1], x, key) + [s[|s| - 1]]
  }

  /** Inserting into an ordered sequence keeps it ordered. */
  lemma {:induction false} InsertOrdered<T(!new)>(s: seq<T>, x: T, key: T -> SortKey)
    requires Ordered(s, key)
    ensures Ordered(Insert(s, x, key), key)
    decreases |s|
  {
    if s == [] || !KeyBefore(key(x), key(s[|s| - 1])) {
      var r := s + [x];
      forall i, j | 0 <= i < j < |r| ensures !KeyBefore(key(r[j]), key(r[i])) {
        if j == |s| && i < |s| - 1 {
          assert !KeyBefore(key(s[|s| - 1]), key(s[i]));
        }
      }
    } else {
      var s', y := s[..|s| - 1], s[|s| - 1];
      assert s == s' + [y];
      var r' := Insert(s', x, key);
      InsertOrdered(s', x, key);
      var r := r' + [y];
      forall i, j | 0 <= i < j < |r| ensures !KeyBefore(key(r[j]), key(r[i])) {
        if j == |r'| {
          assert r[i] in multiset(r');
          assert r[i] == x || r[i] in multiset(s');
          if r[i] != x {
            var k :| 0 <= k < |s'| && s'[k] == r[i];
            assert s[k] == r[i];
          }
        }
      }
    }
  }

  /** The sort LINQ's `OrderBy` performs: a permutation of `s` in key
      order. */
  function SortBy<T(!new)>(s: seq<T>, key: T -> SortKey): (r: seq<T>)
    ensures multiset(r) == multiset(s)
    ensures Ordered(r, key)
    decreases |s|
  {
    if s == [] then []
    else
      var s', x := s[..|s| - 1], s[|s| - 1];
      assert s == s' + [x];
      var r' := SortBy(s', key);
      InsertOrdered(r', x, key);
      Insert(r', x, key)
  }

  /** A sorted sequence has the same length and the same elements as its input. */
  lemma SortByElements<T(!new)>(s: seq<T>, key: T -> SortKey)
    ensures |SortBy(s, key)| == |s|
    ensures forall x :: x in SortBy(s, key) <==> x in s
  {
    var r := SortBy(s, key);
    assert |r| == |multiset(r)| == |multiset(s)| == |s|;
    forall x ensures x in r <==> x in s {
      assert x in r <==> x in multiset(r);
      assert x in s <==> x in multiset(s);
    }
  }

  /** `Where` on a sequence extended by one element. */
  lemma FilterSnoc<T(!new)>(s: seq<T>, y: T, p: T -> bool)
    ensures Filter(s + [y], p) == Filter(s, p) + (if p(y) then [y] else [])
  {
    assert (s + [y])[..|s|] == s;
  }

  /** An element that need not precede any element of `s` goes to its end. */
  lemma InsertAtEnd<T(!new)>(s: seq<T>, x: T, key: T -> SortKey)
    requires forall i :: 0 <= i < |s| ==> !KeyBefore(key(x), key(s[i]))
    ensures Insert(s, x, key) == s + [x]
  {
  }

  /** An element that must precede the last element is inserted before it. */
  lemma InsertBeforeLast<T(!new)>(s: seq<T>, y: T, x: T, key: T -> SortKey)
    requires KeyBefore(key(x), key(y))
    ensures Insert(s + [y], x, key) == Insert(s, x, key) + [y]
  {
    assert (s + [y])[..|s|] == s;
  }

  /** "Not placed before" is transitive. */
  lemma NotBeforeTransitive(a: SortKey, b: SortKey, c: SortKey)
    requires !KeyBefore(a, b) && !KeyBefore(b, c)
    ensures !KeyBefore(a, c)
  {
  }

  /** In an ordered sequence, an element that need not precede the last one
      need not precede any. */
  lemma NotBeforeAny<T(!new)>(s: seq<T>, x: T, key: T -> SortKey)
    requires Ordered(s, key) && s != []
    requires !KeyBefore(key(x), key(s[|s| - 1]))
    ensures forall k :: 0 <= k < |s| ==> !KeyBefore(key(x), key(s[k]))
  {
    forall k | 0 <= k < |s| - 1 ensures !KeyBefore(key(x), key(s[k])) {
      NotBeforeTransitive(key(x), key(s[|s| - 1]), key(s[k]));
    }
  }

  /** What no element of `s` has to follow, no element of a filtered `s` has
      to follow either. */
  lemma FilterNotBefore<T(!new)>(s: seq<T>, x: T, key: T -> SortKey, p: T -> bool)
    requires forall k :: 0 <= k < |s| ==> !KeyBefore(key(x), key(s[k]))
    ensures forall k :: 0 <= k < |Filter(s, p)| ==> !KeyBefore(key(x), key(Filter(s, p)[k]))
  {
    var f := Filter(s, p);
    FilterMembers(s, p);
    forall k | 0 <= k < |f| ensures !KeyBefore(key(x), key(f[k])) {
      assert f[k] in s;
    }
  }

  /** `FilterInsert` when `x` goes to the end of `s`. */
  lemma FilterInsertAtEnd<T(!new)>(s: seq<T>, x: T, key: T -> SortKey, p: T -> bool)
    requires forall k :: 0 <= k < |s| ==> !KeyBefore(key(x), key(s[k]))
    ensures Filter(Insert(s, x, key), p) == if p(x) then Insert(Filter(s, p), x, key) else Filter(s, p)
  {
    InsertAtEnd(s, x, key);
    FilterSnoc(s, x, p);
    if p(x) {
      FilterNotBefore(s, x, key, p);
      InsertAtEnd(Filter(s, p), x, key);
    } else {
      assert Filter(s, p) + [] == Filter(s, p);
    }
  }

  /** `FilterInsert` for `s + [y]` when `x` must precede `y`, given it for `s`. */
  lemma FilterInsertBeforeLast<T(!new)>(s: seq<T>, y: T, x: T, key: T -> SortKey, p: T -> bool)
    requires KeyBefore(key(x), key(y))
    requires Filter(Insert(s, x, key), p) == if p(x) then Insert(Filter(s, p), x, key) else Filter(s, p)
    ensures Filter(Insert(s + [y], x, key), p)
         == if p(x) then Insert(Filter(s + [y], p), x, key) else Filter(s + [y], p)
  {
    var r := Insert(s, x, key);
    InsertBeforeLast(s, y, x, key);
    FilterSnoc(r, y, p);
    FilterSnoc(s, y, p);
    if p(y) {
      if p(x) {
        InsertBeforeLast(Filter(s, p), y, x, key);
      }
    } else {
      assert Filter(s, p) + [] == Filter(s, p);
      assert Filter(r, p) + [] == Filter(r, p);
    }
  }

  /** Filtering an insertion equals inserting into the filtered sequence. */
  lemma {:induction false} FilterInsert<T(!new)>(s: seq<T>, x: T, key: T -> SortKey, p: T -> bool)
    requires Ordered(s, key)
    ensures Filter(Insert(s, x, key), p) == if p(x) then Insert(Filter(s, p), x, key) else Filter(s, p)
    decreases |s|
  {
    if s == [] || !KeyBefore(key(x), key(s[|s| - 1])) {
      if s != [] {
        NotBeforeAny(s, x, key);
      }
      FilterInsertAtEnd(s, x, key, p);
    } else {
      var s', y := s[..|s| - 1], s[|s| - 1];
      assert s == s' + [y];
      FilterInsert(s', x, key, p);
      FilterInsertBeforeLast(s', y, x, key, p);
    }
  }

  /** Sorting a sequence extended by one element inserts that element into
      the sorted prefix. */
  lemma SortBySnoc<T(!new)>(s: seq<T>, x: T, key: T -> SortKey)
    ensures SortBy(s + [x], key) == Insert(SortBy(s, key), x, key)
  {
    assert (s + [x])[..|s|] == s;
  }

  /** Sorting then filtering equals filtering then sorting: `Where` after
      `OrderBy` keeps exactly the order `OrderBy` after `Where` produces. */
  lemma {:induction false} FilterSortCommute<T(!new)>(s: seq<T>, key: T -> SortKey, p: T -> bool)
    ensures SortBy(Filter(s, p), key) == Filter(SortBy(s, key), p)
    decreases |s|
  {
    if s != [] {
      var s', x := s[..|s| - 1], s[|s| - 1];
      assert s == s' + [x];
      FilterSortCommute(s', key, p);
      var r' := SortBy(s', key);
      SortBySnoc(s', x, key);
      FilterInsert(r', x, key, p);
      FilterSnoc(s', x, p);
      var f' := Filter(s', p);
      if p(x) {
        SortBySnoc(f', x, key);
      } else {
        assert f' + [] == f';
      }
    }
  }
}
