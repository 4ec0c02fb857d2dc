/** The ordered associative containers of the C++ standard library
    (`std::map`, `std::set`) as far as the modelled code uses them: iteration
    in ascending key order and `insert`, which adds an entry only when no entry
    with an equivalent key is present.

    A container is the sequence of its entries in iteration order; `key` gives
    an entry's key and `lt` the comparison (`std::less`). */
module Ordered {
  import opened Wrappers

  ghost predicate StrictTotalOrder<K(!new)>(lt: (K, K) -> bool) {
    && (forall a :: !lt(a, a))
    && (forall a, b, c :: lt(a, b) && lt(b, c) ==> lt(a, c))
    && (forall a, b :: a != b ==> lt(a, b) || lt(b, a))
  }

  /** Entries in strictly ascending key order: what iterating a map or set yields. */
  predicate Ascending<E, K>(s: seq<E>, key: E -> K, lt: (K, K) -> bool) {
    forall i, j :: 0 <= i < j < |s| ==> lt(key(s[i]), key(s[j]))
  }

  /** The first entry of `s` whose key is `k`. */
  function Find<E, K(==)>(s: seq<E>, key: E -> K, k: K): (r: Option<E>)
    ensures r.Some? ==> r.value in s && key(r.value) == k
    ensures r.None? <==> forall i :: 0 <= i < |s| ==> key(s[i]) != k
  {
    if s == [] then None
    else if key(s[0]) == k then Some(s[0])
    else Find(s[1..], key, k)
  }

  /** Searching a concatenation finds the first part's entry when there is one. */
  lemma {:induction false} FindAppend<E, K>(a: seq<E>, b: seq<E>, key: E -> K, k: K)
    ensures Find(a + b, key, k) == if Find(a, key, k).Some? then Find(a, key, k) else Find(b, key, k)
  {
    if a != [] {
      assert (a + b)[1..] == a[1..] + b;
      FindAppend(a[1..], b, key, k);
    } else {
      assert a + b == b;
    }
  }

  /** `insert(e)`: adds `e` at its place in the order unless an entry with an
      equivalent key is present, in which case nothing changes. */
  function Insert<E(==), K(!new,==)>(s: seq<E>, e: E, key: E -> K, lt: (K, K) -> bool): (r: seq<E>)
    requires StrictTotalOrder(lt) && Ascending(s, key, lt)
    ensures Ascending(r, key, lt)
    ensures forall x :: x in r ==> x in s || x == e
    ensures forall k :: Find(r, key, k) == Find(s + [e], key, k)
  {
    if s == [] then [e]
    else if key(e) == key(s[0]) then
      assert forall k :: Find(s + [e], key, k) == Find(s, key, k) by {
        forall k ensures Find(s + [e], key, k) == Find(s, key, k) {
          FindAppend(s, [e], key, k);
        }
      }
      s
    else if lt(key(e), key(s[0])) then
      var r := [e] + s;
      assert forall k :: Find(r, key, k) == Find(s + [e], key, k) by {
        forall k ensures Find(r, key, k) == Find(s + [e], key, k) {
          FindAppend(s, [e], key, k);
          if k == key(e) {
            assert forall i :: 0 <= i < |s| ==> key(s[i]) != k by {
              forall i | 0 <= i < |s| ensures key(s[i]) != k {
                assert i == 0 || lt(key(s[0]), key(s[i]));
              }
            }
          }
        }
      }
      r
    else
      var t := Insert(s[1..], e, key, lt);
      var r := [s[0]] + t;
      assert lt(key(s[0]), key(e));
      assert forall x :: x in t ==> lt(key(s[0]), key(x)) by {
        forall x | x in t ensures lt(key(s[0]), key(x)) {
          if x != e {
            var i :| 0 <= i < |s[1..]| && s[1..][i] == x;
            assert s[i + 1] == x;
          }
        }
      }
      assert Ascending(r, key, lt) by {
        forall i, j | 0 <= i < j < |r| ensures lt(key(r[i]), key(r[j])) {
          if i == 0 {
            assert r[j] == t[j - 1];
            assert r[j] in t;
          } else {
            assert r[i] == t[i - 1] && r[j] == t[j - 1];
          }
        }
      }
      assert (s + [e])[1..] == s[1..] + [e];
      r
  }

  /** Inserting `es` one after another into `s`, as the modelled loops do. */
  function InsertAll<E(==), K(!new,==)>(s: seq<E>, es: seq<E>, key: E -> K, lt: (K, K) -> bool): (r: seq<E>)
    requires StrictTotalOrder(lt) && Ascending(s, key, lt)
    ensures Ascending(r, key, lt)
    ensures forall x :: x in r ==> x in s || x in es
    ensures forall k :: Find(r, key, k) == Find(s + es, key, k)
    decreases |es|
  {
    if es == [] then
      assert s + es == s;
      s
    else
      var init := es[..|es| - 1];
      var last := es[|es| - 1];
      var r0 := InsertAll(s, init, key, lt);
      var r := Insert(r0, last, key, lt);
      assert s + es == (s + init) + [last];
      assert forall k :: Find(r, key, k) == Find(s + es, key, k) by {
        forall k ensures Find(r, key, k) == Find(s + es, key, k) {
          FindAppend(r0, [last], key, k);
          FindAppend(s + init, [last], key, k);
        }
      }
      r
  }

  lemma EmptyIffNothingFound<E, K>(s: seq<E>, key: E -> K)
    ensures s == [] <==> forall k :: Find(s, key, k).None?
  {
    assert s != [] ==> Find(s, key, key(s[0])).Some?;
  }

  lemma HeadIsLeast<E, K>(s: seq<E>, key: E -> K, lt: (K, K) -> bool)
    requires Ascending(s, key, lt) && s != []
    ensures forall x :: x in s ==> x == s[0] || lt(key(s[0]), key(x))
  {
    forall x | x in s ensures x == s[0] || lt(key(s[0]), key(x)) {
      var i :| 0 <= i < |s| && s[i] == x;
    }
  }

  /** An ascending container is determined by what `Find` answers for every
      key: the contract of `InsertAll` pins its result down completely. */
  lemma {:induction false} AscendingUnique<E, K(!new)>(s: seq<E>, t: seq<E>, key: E -> K, lt: (K, K) -> bool)
    requires StrictTotalOrder(lt) && Ascending(s, key, lt) && Ascending(t, key, lt)
    requires forall k :: Find(s, key, k) == Find(t, key, k)
    ensures s == t
  {
    EmptyIffNothingFound(s, key);
    EmptyIffNothingFound(t, key);
    if s != [] && t != [] {
      HeadIsLeast(s, key, lt);
      HeadIsLeast(t, key, lt);
      assert Find(t, key, key(s[0])) == Some(s[0]);
      assert Find(s, key, key(t[0])) == Some(t[0]);
      assert s[0] == t[0];
      forall k ensures Find(s[1..], key, k) == Find(t[1..], key, k) {
        if k == key(s[0]) {
          assert forall n :: 1 <= n < |s| ==> lt(key(s[0]), key(s[n]));
          assert forall n :: 1 <= n < |t| ==> lt(key(t[0]), key(t[n]));
          assert Find(s[1..], key, k).None?;
          assert Find(t[1..], key, k).None?;
        } else {
          assert Find(s, key, k) == Find(s[1..], key, k);
          assert Find(t, key, k) == Find(t[1..], key, k);
        }
      }
      AscendingUnique(s[1..], t[1..], key, lt);
      assert s == [s[0]] + s[1..] && t == [t[0]] + t[1..];
    }
  }

  /** The first entry carrying a key is the one `Find` answers. */
  lemma {:induction false} FindFirstOccurrence<E, K>(s: seq<E>, key: E -> K, i: nat)
    requires i < |s|
    requires forall j :: 0 <= j < i ==> key(s[j]) != key(s[i])
    ensures Find(s, key, key(s[i])) == Some(s[i])
  {
    if i > 0 {
      FindFirstOccurrence(s[1..], key, i - 1);
    }
  }

  /** An ascending container holds at most one entry per key. */
  lemma AscendingKeysUnique<E, K(!new)>(s: seq<E>, key: E -> K, lt: (K, K) -> bool, x: E, y: E)
    requires forall k :: !lt(k, k)
    requires Ascending(s, key, lt) && x in s && y in s && key(x) == key(y)
    ensures x == y
  {
    forall i, j | 0 <= i < j < |s| ensures key(s[i]) != key(s[j]) {
      assert lt(key(s[i]), key(s[j])) && !lt(key(s[i]), key(s[i]));
    }
  }
}
