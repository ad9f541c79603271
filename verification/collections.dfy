/** Sequence and map facts shared by the stores: the `ORDER BY ... DESC`
    ordering, counting rows that carry a given key, and summing the values of
    a counting map. */
module Collections {

  /** `s` lists its elements by non-increasing `key`. */
  ghost predicate SortedDesc<T>(s: seq<T>, key: T -> int) {
    forall i, j :: 0 <= i < j < |s| ==> key(s[i]) >= key(s[j])
  }

  /** Places `x` in front of the first element whose key does not exceed its
      own. */
  function InsertDesc<T>(x: T, s: seq<T>, key: T -> int): (r: seq<T>)
    requires SortedDesc(s, key)
    ensures SortedDesc(r, key)
    ensures multiset(r) == multiset(s) + multiset{x}
  {
    if |s| == 0 || key(s[0]) <= key(x) then [x] + s
    else
      var rest := InsertDesc(x, s[1..], key);
      assert s == [s[0]] + s[1..];
      forall k | 0 <= k < |rest|
        ensures key(s[0]) >= key(rest[k])
      {
        assert rest[k] in multiset(rest);
        if rest[k] != x {
          assert rest[k] in multiset(s[1..]);
        }
      }
      [s[0]] + rest
  }

  /** The rows of `s` reordered by non-increasing `key`, as
      `ORDER BY key DESC` returns them; rows with equal keys keep their
      storage order. */
  function SortDesc<T>(s: seq<T>, key: T -> int): (r: seq<T>)
    ensures SortedDesc(r, key)
    ensures multiset(r) == multiset(s)
    ensures |r| == |s|
  {
    if |s| == 0 then []
    else
      assert s == [s[0]] + s[1..];
      var r := InsertDesc(s[0], SortDesc(s[1..], key), key);
      assert |multiset(r)| == |multiset(s)|;
      r
  }

  /** The number of elements of `s` whose `key` is `k`. */
  function Count<T, K(==)>(s: seq<T>, key: T -> K, k: K): (n: nat)
    ensures n <= |s|
  {
    if |s| == 0 then 0
    else Count(s[..|s| - 1], key, k) + (if key(s[|s| - 1]) == k then 1 else 0)
  }

  lemma {:induction false} CountAppend<T, K>(a: seq<T>, b: seq<T>, key: T -> K, k: K)
    ensures Count(a + b, key, k) == Count(a, key, k) + Count(b, key, k)
    decreases |b|
  {
    if |b| == 0 {
      assert a + b == a;
    } else {
      assert (a + b)[..|a + b| - 1] == a + b[..|b| - 1];
      CountAppend(a, b[..|b| - 1], key, k);
    }
  }

  /** Some element carries key `k` exactly when the count is positive. */
  lemma {:induction false} CountPositive<T, K>(s: seq<T>, key: T -> K, k: K)
    ensures Count(s, key, k) > 0 <==> exists i :: 0 <= i < |s| && key(s[i]) == k
  {
    if |s| > 0 {
      var p := s[..|s| - 1];
      CountPositive(p, key, k);
      if exists i :: 0 <= i < |p| && key(p[i]) == k {
        var i :| 0 <= i < |p| && key(p[i]) == k;
        assert key(s[i]) == k;
      }
      if exists i :: 0 <= i < |s| && key(s[i]) == k {
        var i :| 0 <= i < |s| && key(s[i]) == k;
        if i < |p| {
          assert key(p[i]) == k;
        }
      }
    }
  }

  lemma CountSingle<T, K>(x: T, key: T -> K, k: K)
    ensures Count([x], key, k) == if key(x) == k then 1 else 0
  {
    assert [x][..0] == [];
  }

  /** Extending a prefix by one element adds that element's share. */
  lemma CountPrefixStep<T, K>(s: seq<T>, i: nat, key: T -> K, k: K)
    requires i < |s|
    ensures Count(s[..i + 1], key, k) == Count(s[..i], key, k) + (if key(s[i]) == k then 1 else 0)
  {
    assert s[..i + 1][..i] == s[..i];
  }

  /** Taking out the element at `j` lowers the count by that element's
      share. */
  lemma CountRemoveAt<T, K>(t: seq<T>, j: nat, key: T -> K, k: K)
    requires j < |t|
    ensures Count(t, key, k) == Count(t[..j] + t[j + 1..], key, k) + (if key(t[j]) == k then 1 else 0)
  {
    var a, x, b := t[..j], t[j], t[j + 1..];
    assert t == a + ([x] + b);
    CountAppend(a, [x] + b, key, k);
    CountAppend([x], b, key, k);
    CountAppend(a, b, key, k);
    CountSingle(x, key, k);
  }

  /** Counts do not depend on the order of the elements. */
  lemma {:induction false} CountPermutation<T, K>(s: seq<T>, t: seq<T>, key: T -> K, k: K)
    requires multiset(s) == multiset(t)
    ensures Count(s, key, k) == Count(t, key, k)
    decreases |s|
  {
    if |s| == 0 {
      assert |t| == |multiset(t)| == 0;
    } else {
      var x := s[|s| - 1];
      var s' := s[..|s| - 1];
      assert s == s' + [x];
      assert x in multiset(t);
      var j :| 0 <= j < |t| && t[j] == x;
      var t' := t[..j] + t[j + 1..];
      assert multiset(t') == multiset(t) - multiset{x} by {
        assert t == t[..j] + [x] + t[j + 1..];
      }
      assert multiset(s') == multiset(s) - multiset{x};
      CountPermutation(s', t', key, k);
      CountRemoveAt(t, j, key, k);
    }
  }

  /** The sum of the values of a counting map. */
  ghost function SumValues<K>(m: map<K, nat>): nat
    decreases |m|
  {
    if m == map[] then 0
    else
      var k :| k in m;
      assert (m - {k}).Keys == m.Keys - {k};
      m[k] + SumValues(m - {k})
  }

  /** Any key may be taken out first. */
  lemma {:induction false} SumValuesRemove<K>(m: map<K, nat>, k: K)
    requires k in m
    ensures SumValues(m) == m[k] + SumValues(m - {k})
    decreases |m|
  {
    var j :| j in m && SumValues(m) == m[j] + SumValues(m - {j});
    if j != k {
      assert (m - {j}).Keys == m.Keys - {j};
      SumValuesRemove(m - {j}, k);
      SumValuesRemove(m - {k}, j);
      assert m - {j} - {k} == m - {k} - {j};
    }
  }

  /** The counting map with one more occurrence of `k`. */
  function Bump<K>(m: map<K, nat>, k: K): (r: map<K, nat>)
    ensures r.Keys == m.Keys + {k}
    ensures r[k] == (if k in m then m[k] else 0) + 1
    ensures forall j :: j in m && j != k ==> r[j] == m[j]
  {
    m[k := if k in m then m[k] + 1 else 1]
  }

  /** One more occurrence raises the sum by one. */
  lemma SumValuesBump<K>(m: map<K, nat>, k: K)
    ensures SumValues(Bump(m, k)) == SumValues(m) + 1
  {
    var m' := Bump(m, k);
    SumValuesRemove(m', k);
    if k in m {
      SumValuesRemove(m, k);
      assert m' - {k} == m - {k};
    } else {
      assert m' - {k} == m;
    }
  }
}
