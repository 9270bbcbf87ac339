/**
 * Python's `sorted(xs, key=...)` and `xs.sort(key=...)` for keys that are
 * strings or pairs of strings, both written as pairs: a stable sort,
 * modelled by insertion sort.
 * A stable sort is determined by its input: `SortByUnique` shows that any
 * sorted sequence with the same elements per key, in the same order, is
 * the one `SortBy` returns, so the choice of algorithm does not matter.
 */
module Sorting {
  import opened Text

  /** A sort key: a pair of strings compared as a tuple; a key that is one string `s` is written `(s, "")`. */
  type Key = (string, string)

  /** Python's `<=` on 2-tuples of `str`: first components, then second. */
  predicate KeyLe(a: Key, b: Key) {
    StrLt(a.0, b.0) || (a.0 == b.0 && StrLe(a.1, b.1))
  }

  lemma KeyLeReflexive(a: Key)
    ensures KeyLe(a, a)
  {
    StrLeReflexive(a.1);
  }

  lemma KeyLeTotal(a: Key, b: Key)
    ensures KeyLe(a, b) || KeyLe(b, a)
  {
    StrLeTotal(a.0, b.0);
    StrLeTotal(a.1, b.1);
  }

  lemma KeyLeTransitive(a: Key, b: Key, c: Key)
    requires KeyLe(a, b) && KeyLe(b, c)
    ensures KeyLe(a, c)
  {
    StrLeReflexive(b.0);
    StrLeTransitive(a.0, b.0, c.0);
    if a.0 == c.0 { StrLeAntisymmetric(a.0, b.0); }
    if a.0 == b.0 && b.0 == c.0 { StrLeTransitive(a.1, b.1, c.1); }
  }

  lemma KeyLeAntisymmetric(a: Key, b: Key)
    requires KeyLe(a, b) && KeyLe(b, a)
    ensures a == b
  {
    if a.0 == b.0 {
      StrLeAntisymmetric(a.1, b.1);
    } else {
      StrLeAntisymmetric(a.0, b.0);
    }
  }

  /** Keys whose second component is empty compare as their first components do. */
  lemma KeyLeSingle(a: string, b: string)
    ensures KeyLe((a, ""), (b, "")) <==> StrLe(a, b)
  {
  }

  /** `s` is non-decreasing by `key`. */
  predicate SortedBy<T>(s: seq<T>, key: T -> Key) {
    forall i, j :: 0 <= i < j < |s| ==> KeyLe(key(s[i]), key(s[j]))
  }

  /** Inserts `x` in front of the first element whose key is not below its own. */
  function Insert<T>(x: T, s: seq<T>, key: T -> Key): (r: seq<T>)
    ensures multiset(r) == multiset(s) + multiset{x}
  {
    if s == [] then [x]
    else if KeyLe(key(x), key(s[0])) then [x] + s
    else
      assert s == [s[0]] + s[1..];
      [s[0]] + Insert(x, s[1..], key)
  }

  /** Stable sort of `s` by `key`: a permutation of `s`. */
  function SortBy<T>(s: seq<T>, key: T -> Key): (r: seq<T>)
    ensures multiset(r) == multiset(s)
    ensures |r| == |s|
  {
    if s == [] then []
    else
      assert s == [s[0]] + s[1..];
      Insert(s[0], SortBy(s[1..], key), key)
  }

  lemma {:induction false} InsertSorted<T>(x: T, s: seq<T>, key: T -> Key)
    requires SortedBy(s, key)
    ensures SortedBy(Insert(x, s, key), key)
  {
    if s == [] {
    } else if KeyLe(key(x), key(s[0])) {
      var r := [x] + s;
      forall i, j | 0 <= i < j < |r| ensures KeyLe(key(r[i]), key(r[j])) {
        if i == 0 && j > 1 { KeyLeTransitive(key(x), key(s[0]), key(s[j - 1])); }
      }
    } else {
      KeyLeTotal(key(x), key(s[0]));
      var t := Insert(x, s[1..], key);
      InsertSorted(x, s[1..], key);
      var r := [s[0]] + t;
      forall j | 0 <= j < |t| ensures KeyLe(key(s[0]), key(t[j])) {
        assert t[j] in multiset(t);
        if t[j] != x {
          assert t[j] in multiset(s[1..]);
          var m :| 0 <= m < |s[1..]| && s[1..][m] == t[j];
          assert s[m + 1] == t[j];
        }
      }
      assert SortedBy(r, key);
    }
  }

  /** The sort's output is non-decreasing by `key`. */
  lemma {:induction false} SortBySorted<T>(s: seq<T>, key: T -> Key)
    ensures SortedBy(SortBy(s, key), key)
  {
    if s != [] {
      SortBySorted(s[1..], key);
      InsertSorted(s[0], SortBy(s[1..], key), key);
    }
  }

  /** The elements of `s` whose key is `k`, in their order in `s`. */
  function WithKey<T>(s: seq<T>, k: Key, key: T -> Key): (r: seq<T>)
    ensures forall y :: y in r ==> y in s && key(y) == k
  {
    if s == [] then []
    else (if key(s[0]) == k then [s[0]] else []) + WithKey(s[1..], k, key)
  }

  /** `WithKey` of a sequence with a given first element. */
  lemma WithKeyCons<T>(y: T, t: seq<T>, k: Key, key: T -> Key)
    ensures WithKey([y] + t, k, key) == (if key(y) == k then [y] else []) + WithKey(t, k, key)
  {
    assert ([y] + t)[1..] == t;
  }

  /**
   * The inductive step of `InsertWithKey`: an element that goes past the
   * head of `s` joins the head's key group after the head only if its key
   * is above the head's, so it cannot share the head's key.
   */
  lemma WithKeyPastHead<T>(x: T, s: seq<T>, r: seq<T>, t: seq<T>, k: Key, key: T -> Key)
    requires s != [] && !KeyLe(key(x), key(s[0]))
    requires r == [s[0]] + t
    requires WithKey(t, k, key) == (if key(x) == k then [x] else []) + WithKey(s[1..], k, key)
    ensures WithKey(r, k, key) == (if key(x) == k then [x] else []) + WithKey(s, k, key)
  {
    WithKeyCons(s[0], t, k, key);
    WithKeyCons(s[0], s[1..], k, key);
    assert s == [s[0]] + s[1..];
    var rest := WithKey(s[1..], k, key);
    if key(x) == k {
      KeyLeReflexive(key(x));
      assert key(s[0]) != k;
      assert WithKey(r, k, key) == WithKey(t, k, key) == [x] + rest;
      assert WithKey(s, k, key) == rest;
    } else if key(s[0]) == k {
      assert WithKey(t, k, key) == rest;
      assert WithKey(r, k, key) == [s[0]] + rest == WithKey(s, k, key);
    } else {
      assert WithKey(r, k, key) == WithKey(t, k, key) == rest == WithKey(s, k, key);
    }
  }

  lemma {:induction false} InsertWithKey<T>(x: T, s: seq<T>, k: Key, key: T -> Key)
    ensures WithKey(Insert(x, s, key), k, key)
         == (if key(x) == k then [x] else []) + WithKey(s, k, key)
  {
    if s == [] {
      WithKeyCons(x, [], k, key);
    } else if KeyLe(key(x), key(s[0])) {
      WithKeyCons(x, s, k, key);
    } else {
      var t := Insert(x, s[1..], key);
      assert Insert(x, s, key) == [s[0]] + t;
      InsertWithKey(x, s[1..], k, key);
      WithKeyPastHead(x, s, Insert(x, s, key), t, k, key);
    }
  }

  /** Stability: for every key, the elements having it keep their order. */
  lemma {:induction false} SortByStable<T>(s: seq<T>, k: Key, key: T -> Key)
    ensures WithKey(SortBy(s, key), k, key) == WithKey(s, k, key)
  {
    if s != [] {
      SortByStable(s[1..], k, key);
      InsertWithKey(s[0], SortBy(s[1..], key), k, key);
    }
  }

  /** `r` is a possible result of stably sorting `s` by `key`. */
  ghost predicate StablySorted<T>(r: seq<T>, s: seq<T>, key: T -> Key) {
    SortedBy(r, key) && forall k :: WithKey(r, k, key) == WithKey(s, k, key)
  }

  lemma SortByIsStablySorted<T>(s: seq<T>, key: T -> Key)
    ensures StablySorted(SortBy(s, key), s, key)
  {
    SortBySorted(s, key);
    forall k ensures WithKey(SortBy(s, key), k, key) == WithKey(s, k, key) {
      SortByStable(s, k, key);
    }
  }

  /** The first element of a sequence leads the elements having its key. */
  lemma WithKeyHead<T>(s: seq<T>, key: T -> Key)
    requires s != []
    ensures WithKey(s, key(s[0]), key) != [] && WithKey(s, key(s[0]), key)[0] == s[0]
  {
  }

  /** Two sorted sequences with the same elements per key start with the same key. */
  lemma FirstKeysEqual<T>(u: seq<T>, v: seq<T>, key: T -> Key)
    requires u != [] && v != []
    requires SortedBy(u, key) && SortedBy(v, key)
    requires forall k :: WithKey(u, k, key) == WithKey(v, k, key)
    ensures key(u[0]) == key(v[0])
  {
    var ku, kv := key(u[0]), key(v[0]);
    WithKeyHead(u, key);
    WithKeyHead(v, key);
    assert u[0] in WithKey(v, ku, key);
    assert v[0] in WithKey(u, kv, key);
    var m :| 0 <= m < |u| && u[m] == v[0];
    var n :| 0 <= n < |v| && v[n] == u[0];
    if m == 0 { KeyLeReflexive(ku); }
    if n == 0 { KeyLeReflexive(kv); }
    KeyLeAntisymmetric(ku, kv);
  }

  /** Two sorted sequences with the same elements per key, in the same order, are equal. */
  lemma {:induction false} SortedEqual<T>(u: seq<T>, v: seq<T>, key: T -> Key)
    requires SortedBy(u, key) && SortedBy(v, key)
    requires forall k :: WithKey(u, k, key) == WithKey(v, k, key)
    ensures u == v
    decreases |u| + |v|
  {
    if u != [] && v != [] {
      FirstKeysEqual(u, v, key);
      var k0 := key(u[0]);
      WithKeyHead(u, key);
      WithKeyHead(v, key);
      assert WithKey(u, k0, key) == WithKey(v, k0, key);
      assert u[0] == v[0];
      forall k ensures WithKey(u[1..], k, key) == WithKey(v[1..], k, key) {
        var a, b := WithKey(u[1..], k, key), WithKey(v[1..], k, key);
        assert WithKey(u, k, key) == (if k0 == k then [u[0]] else []) + a;
        assert WithKey(v, k, key) == (if k0 == k then [v[0]] else []) + b;
        assert WithKey(u, k, key) == WithKey(v, k, key);
        if k0 == k {
          assert WithKey(u, k, key)[1..] == a && WithKey(v, k, key)[1..] == b;
        } else {
          assert WithKey(u, k, key) == a;
        }
        assert a == b;
      }
      SortedEqual(u[1..], v[1..], key);
      assert u == [u[0]] + u[1..] && v == [v[0]] + v[1..];
    } else {
      if u != [] { WithKeyHead(u, key); }
      if v != [] { WithKeyHead(v, key); }
    }
  }

  /** A stable sort has exactly one possible result, the one `SortBy` computes. */
  lemma SortByUnique<T>(r: seq<T>, s: seq<T>, key: T -> Key)
    requires StablySorted(r, s, key)
    ensures r == SortBy(s, key)
  {
    SortByIsStablySorted(s, key);
    SortedEqual(r, SortBy(s, key), key);
  }
}
