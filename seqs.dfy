/** Generic sequence helpers: order-preserving filtering and the subsequence relation. */
module Seqs {
  import opened Wrappers

  /** `t` can be obtained from `s` by deleting elements. */
  predicate IsSubsequence<T(==)>(t: seq<T>, s: seq<T>)
    decreases |s|
  {
    if t == [] then true
    else if s == [] then false
    else if t[0] == s[0] then IsSubsequence(t[1..], s[1..])
    else IsSubsequence(t, s[1..])
  }

  /** Dropping the first element of a subsequence keeps it a subsequence. */
  lemma {:induction false} SubsequenceDropFirst<T>(t: seq<T>, s: seq<T>)
    requires t != [] && IsSubsequence(t, s)
    ensures IsSubsequence(t[1..], s)
    decreases |s|, 1
  {
    if s == [] {
      assert false;
    } else if t[0] == s[0] {
      SubsequenceOfTail(t[1..], s);
    } else {
      SubsequenceDropFirst(t, s[1..]);
      SubsequenceOfTail(t[1..], s);
    }
  }

  /** A subsequence of the tail is a subsequence of the whole. */
  lemma {:induction false} SubsequenceOfTail<T>(t: seq<T>, s: seq<T>)
    requires s != [] && IsSubsequence(t, s[1..])
    ensures IsSubsequence(t, s)
    decreases |s|, 0
  {
    if t != [] && t[0] == s[0] {
      SubsequenceDropFirst(t, s[1..]);
    }
  }

  /** The elements of `s` satisfying `p`, in their order in `s` (`Array.prototype.filter`). */
  function Filter<T>(s: seq<T>, p: T -> bool): seq<T> {
    if s == [] then [] else (if p(s[0]) then [s[0]] else []) + Filter(s[1..], p)
  }

  /** An element is kept exactly when it occurs in the input and satisfies the predicate. */
  lemma {:induction false} FilterMembers<T>(s: seq<T>, p: T -> bool)
    ensures forall x :: x in Filter(s, p) <==> x in s && p(x)
  {
    if s != [] {
      FilterMembers(s[1..], p);
      assert s == [s[0]] + s[1..];
    }
  }

  /** Filtering keeps every occurrence of a satisfying element and none of the others. */
  lemma {:induction false} FilterCounts<T>(s: seq<T>, p: T -> bool)
    ensures forall x :: multiset(Filter(s, p))[x] == if p(x) then multiset(s)[x] else 0
  {
    if s != [] {
      FilterCounts(s[1..], p);
      assert s == [s[0]] + s[1..];
      assert multiset(s) == multiset([s[0]]) + multiset(s[1..]);
      assert multiset(Filter(s, p)) ==
        multiset(if p(s[0]) then [s[0]] else []) + multiset(Filter(s[1..], p));
    }
  }

  /** Filtering keeps the input order. */
  lemma {:induction false} FilterIsSubsequence<T>(s: seq<T>, p: T -> bool)
    ensures IsSubsequence(Filter(s, p), s)
  {
    if s != [] {
      FilterIsSubsequence(s[1..], p);
      var t := Filter(s, p);
      if !p(s[0]) {
        assert t == Filter(s[1..], p);
        SubsequenceOfTail(t, s);
      } else {
        assert t == [s[0]] + Filter(s[1..], p);
        assert t[0] == s[0] && t[1..] == Filter(s[1..], p);
      }
    }
  }

  /** Filtering by a predicate every element satisfies changes nothing. */
  lemma {:induction false} FilterKeepsAll<T>(s: seq<T>, p: T -> bool)
    requires forall x :: x in s ==> p(x)
    ensures Filter(s, p) == s
  {
    if s != [] {
      FilterKeepsAll(s[1..], p);
      assert s == [s[0]] + s[1..];
    }
  }

  lemma {:induction false} FilterSnoc<T>(s: seq<T>, x: T, p: T -> bool)
    ensures Filter(s + [x], p) == Filter(s, p) + (if p(x) then [x] else [])
  {
    if s != [] {
      assert (s + [x])[1..] == s[1..] + [x];
      FilterSnoc(s[1..], x, p);
    } else {
      assert (s + [x])[1..] == [];
    }
  }

  /** The elements of `s` whose key is `k`, in their order in `s`. */
  ghost function WithKey<T, K>(s: seq<T>, key: T -> Option<K>, k: K): seq<T> {
    Filter(s, HasKey(key, k))
  }

  ghost function HasKey<T, K>(key: T -> Option<K>, k: K): T -> bool {
    x => key(x) == Some(k)
  }

  /** An element is in the group of `k` exactly when it occurs in the input with key `k`. */
  lemma WithKeyMembers<T, K>(s: seq<T>, key: T -> Option<K>, k: K)
    ensures forall y :: y in WithKey(s, key, k) ==> y in s && key(y) == Some(k)
    ensures forall y :: y in s && key(y) == Some(k) ==> y in WithKey(s, key, k)
  {
    var p := HasKey(key, k);
    FilterMembers(s, p);
    forall y | y in WithKey(s, key, k) ensures y in s && key(y) == Some(k) {
      WithKeyMember(s, key, k, y);
    }
    forall y | y in s && key(y) == Some(k) ensures y in WithKey(s, key, k) {
      assert p(y);
    }
  }

  lemma AbsentKeyIsEmpty<T, K>(s: seq<T>, key: T -> Option<K>, k: K)
    requires k !in KeysOf(s, key)
    ensures WithKey(s, key, k) == []
  {
    if WithKey(s, key, k) != [] {
      var y := WithKey(s, key, k)[0];
      WithKeyMember(s, key, k, y);
      assert false;
    }
  }

  lemma WithKeyMember<T, K>(s: seq<T>, key: T -> Option<K>, k: K, y: T)
    requires y in WithKey(s, key, k)
    ensures y in s && key(y) == Some(k)
  {
    var p := HasKey(key, k);
    FilterMembers(s, p);
    assert WithKey(s, key, k) == Filter(s, p);
    assert y in Filter(s, p);
    assert p(y);
    assert p(y) == (key(y) == Some(k));
  }

  /** The keys that occur in `s`; an element whose key is `None` has none. */
  ghost function KeysOf<T, K>(s: seq<T>, key: T -> Option<K>): set<K> {
    set x | x in s && key(x).Some? :: key(x).value
  }

  /** Every occurring key mapped to the elements that have it, in input order. */
  ghost function GroupBy<T, K>(s: seq<T>, key: T -> Option<K>): map<K, seq<T>> {
    map k | k in KeysOf(s, key) :: WithKey(s, key, k)
  }

  /** Appending an element without a key changes nothing. */
  lemma GroupBySnocNone<T, K>(s: seq<T>, x: T, key: T -> Option<K>)
    requires key(x).None?
    ensures GroupBy(s + [x], key) == GroupBy(s, key)
  {
    var s' := s + [x];
    assert forall y :: y in s' <==> y in s || y == x;
    assert KeysOf(s', key) == KeysOf(s, key);
    forall k | k in KeysOf(s, key) ensures WithKey(s', key, k) == WithKey(s, key, k) {
      FilterSnoc(s, x, HasKey(key, k));
    }
  }

  /** Appending an element pushes it onto the end of its own group, creating the group if needed. */
  lemma GroupBySnocSome<T, K>(s: seq<T>, x: T, key: T -> Option<K>, k: K)
    requires key(x) == Some(k)
    ensures GroupBy(s + [x], key) ==
              GroupBy(s, key)[k := (if k in GroupBy(s, key) then GroupBy(s, key)[k] else []) + [x]]
  {
    var s' := s + [x];
    var before, after := GroupBy(s, key), GroupBy(s', key);
    var expected := before[k := (if k in before then before[k] else []) + [x]];
    assert forall y :: y in s' <==> y in s || y == x;
    assert KeysOf(s', key) == KeysOf(s, key) + {k};
    forall k' | k' in after.Keys ensures after[k'] == expected[k'] {
      FilterSnoc(s, x, HasKey(key, k'));
      assert after[k'] == WithKey(s, key, k') + (if k' == k then [x] else []);
      if k' == k && k !in before {
        AbsentKeyIsEmpty(s, key, k);
      }
    }
    assert after.Keys == expected.Keys;
  }

  /** The group of one key is non-empty, holds exactly the elements with that key, and keeps their input order. */
  lemma GroupOfKey<T, K>(s: seq<T>, key: T -> Option<K>, k: K)
    requires k in GroupBy(s, key)
    ensures GroupBy(s, key)[k] != [] && IsSubsequence(GroupBy(s, key)[k], s)
    ensures forall x :: x in GroupBy(s, key)[k] <==> x in s && key(x) == Some(k)
  {
    FilterMembers(s, HasKey(key, k));
    FilterIsSubsequence(s, HasKey(key, k));
    var x :| x in s && key(x) == Some(k);
    assert x in WithKey(s, key, k);
  }

  /**
   * Each group is non-empty, holds exactly the elements with its key, and
   * keeps their input order; an element with a key lies in the group of
   * that key and in no other.
   */
  lemma GroupByPartitions<T, K>(s: seq<T>, key: T -> Option<K>)
    ensures forall k :: k in GroupBy(s, key) ==> GroupBy(s, key)[k] != [] && IsSubsequence(GroupBy(s, key)[k], s)
    ensures forall k, x :: k in GroupBy(s, key) ==> (x in GroupBy(s, key)[k] <==> x in s && key(x) == Some(k))
    ensures forall x :: x in s && key(x).Some? ==> key(x).value in GroupBy(s, key)
  {
    forall k | k in GroupBy(s, key)
      ensures GroupBy(s, key)[k] != [] && IsSubsequence(GroupBy(s, key)[k], s)
      ensures forall x :: x in GroupBy(s, key)[k] <==> x in s && key(x) == Some(k)
    {
      GroupOfKey(s, key, k);
    }
  }

  /** Each group keeps every occurrence of the elements with its key, and no other element. */
  lemma GroupByCounts<T, K>(s: seq<T>, key: T -> Option<K>, k: K)
    requires k in GroupBy(s, key)
    ensures forall x :: multiset(GroupBy(s, key)[k])[x] == if key(x) == Some(k) then multiset(s)[x] else 0
  {
    FilterCounts(s, HasKey(key, k));
  }
}
