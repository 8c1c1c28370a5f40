/** EF Core tables (`DbSet<T>`): a map from primary key to row. A query over a
    table sees its rows in an order the database does not promise, so the
    queries here are methods that may enumerate the keys in any order. */
module Tables {
  import opened Common
  import opened Sequences

  /** Every row is stored under its own primary key. */
  ghost predicate Keyed<K(!new), V(!new)>(m: map<K, V>, id: V -> K) {
    forall k :: k in m ==> id(m[k]) == k
  }

  /** In a keyed table, a value is a row iff it is stored under its own key. */
  lemma KeyedValues<K(!new), V(!new)>(m: map<K, V>, id: V -> K, v: V)
    requires Keyed(m, id)
    ensures v in m.Values <==> id(v) in m && m[id(v)] == v
  {
    if v in m.Values {
      var k :| k in m && m[k] == v;
    }
  }

  /** The primary keys of a table, in some order, each once. */
  method KeysOf<K(!new), V>(m: map<K, V>) returns (ks: seq<K>)
    ensures Distinct(ks)
    ensures forall k :: k in ks <==> k in m
  {
    ks := [];
    var rest := m.Keys;
    while rest != {}
      invariant rest <= m.Keys
      invariant Distinct(ks)
      invariant forall k :: k in ks <==> k in m && k !in rest
      decreases |rest|
    {
      var k :| k in rest;
      ks := ks + [k];
      rest := rest - {k};
    }
  }

  /** A sequence without repetitions holds each value at most once. */
  lemma {:induction false} DistinctCount<T(!new)>(s: seq<T>, x: T)
    requires Distinct(s)
    ensures multiset(s)[x] <= 1
    decreases |s|
  {
    if s != [] {
      var s', y := s[..|s| - 1], s[|s| - 1];
      assert s == s' + [y];
      DistinctCount(s', x);
      if y == x {
        assert x !in s';
      }
    }
  }

  /** A permutation of a sequence without repetitions has none either. */
  lemma PermutationDistinct<T(!new)>(a: seq<T>, b: seq<T>)
    requires Distinct(a) && multiset(a) == multiset(b)
    ensures Distinct(b)
  {
    forall i, j | 0 <= i < j < |b| ensures b[i] != b[j] {
      if b[i] == b[j] {
        assert b == b[..j] + [b[j]] + b[j + 1..];
        assert b[i] in b[..j];
        assert multiset(b)[b[j]] >= 2;
        DistinctCount(a, b[j]);
      }
    }
  }

  /** A subset has at most as many elements. */
  lemma {:induction false} SubsetCard<T>(a: set<T>, b: set<T>)
    requires a <= b
    ensures |a| <= |b|
    decreases |b|
  {
    if a != {} {
      var x :| x in a;
      SubsetCard(a - {x}, b - {x});
    }
  }

  /** The rows of a keyed table that satisfy `p`, each once, in `key` order
      (`Where(p).OrderBy…(key).ToListAsync()`). */
  method ListWhere<K(!new), V(==, !new)>(m: map<K, V>, id: V -> K, p: V -> bool, key: V -> SortKey)
    returns (r: seq<V>)
    requires Keyed(m, id)
    ensures Distinct(r)
    ensures forall v :: v in r <==> v in m.Values && p(v)
    ensures Ordered(r, key)
  {
    var ks := KeysOf(m);
    var rows: seq<V> := [];
    var i := 0;
    while i < |ks|
      invariant 0 <= i <= |ks|
      invariant Distinct(rows)
      invariant forall v :: v in rows <==> id(v) in ks[..i] && id(v) in m && m[id(v)] == v && p(v)
    {
      var v := m[ks[i]];
      if p(v) {
        assert id(v) == ks[i];
        assert v !in rows;
        rows := rows + [v];
      }
      assert ks[..i + 1] == ks[..i] + [ks[i]];
      i := i + 1;
    }
    assert ks[..i] == ks;
    r := SortBy(rows, key);
    PermutationDistinct(rows, r);
    SortByElements(rows, key);
    forall v ensures v in r <==> v in m.Values && p(v) {
      KeyedValues(m, id, v);
    }
  }

  /** The first row found that satisfies `p` (`FirstOrDefaultAsync(p)`), if
      any. */
  method FindWhere<K(!new), V(==, !new)>(m: map<K, V>, p: V -> bool) returns (r: Option<V>)
    ensures r.Some? ==> r.value in m.Values && p(r.value)
    ensures r.None? <==> forall k :: k in m ==> !p(m[k])
  {
    var ks := KeysOf(m);
    var i := 0;
    while i < |ks|
      invariant 0 <= i <= |ks|
      invariant forall j :: 0 <= j < i ==> !p(m[ks[j]])
    {
      if p(m[ks[i]]) {
        return Some(m[ks[i]]);
      }
      i := i + 1;
    }
    forall k | k in m ensures !p(m[k]) {
      var j :| 0 <= j < |ks| && ks[j] == k;
    }
    return None;
  }
}
