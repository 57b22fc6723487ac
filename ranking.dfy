/**
 * Ranking of one bucket: the built-in array sort, ascending by member count
 * with a missing count read as 0 (the ECMAScript sort is required to be
 * stable), followed by taking the first ten. The sort is a library routine;
 * it is modelled by an insertion sort whose result is proved sorted, a
 * permutation and stable, and shown to be the only arrangement with those
 * properties.
 */
module Ranking {
  import opened Records

  /** How many groups a summary record lists at most. */
  const TopN: nat := 10

  function Min(a: nat, b: nat): nat { if a <= b then a else b }

  predicate Sorted(s: seq<Group>) {
    forall i, j :: 0 <= i < j < |s| ==> Members(s[i]) <= Members(s[j])
  }

  /** The groups of `s` with exactly `v` members, in their order in `s`. */
  function WithMembers(s: seq<Group>, v: int): (r: seq<Group>)
  {
    if s == [] then []
    else (if Members(s[0]) == v then [s[0]] else []) + WithMembers(s[1..], v)
  }

  /** The count class of `v` holds only groups of `s` with exactly `v` members. */
  lemma {:induction false} WithMembersIn(s: seq<Group>, v: int)
    ensures forall i :: 0 <= i < |WithMembers(s, v)| ==> WithMembers(s, v)[i] in s && Members(WithMembers(s, v)[i]) == v
  {
    if s != [] {
      WithMembersIn(s[1..], v);
    }
  }

  /** Inserts `x` before the first element with at least as many members. */
  function Insert(x: Group, s: seq<Group>): (r: seq<Group>)
    ensures |r| == |s| + 1
  {
    if s == [] || Members(x) <= Members(s[0]) then [x] + s
    else [s[0]] + Insert(x, s[1..])
  }

  /** Stable ascending sort by member count. */
  function SortByMembers(s: seq<Group>): (r: seq<Group>)
    ensures |r| == |s|
  {
    if s == [] then [] else Insert(s[0], SortByMembers(s[1..]))
  }

  /** The first `TopN` groups of the sorted bucket. */
  function Rank(bucket: seq<Group>): seq<Group> {
    SortByMembers(bucket)[..Min(TopN, |bucket|)]
  }

  lemma {:induction false} InsertPermutes(x: Group, s: seq<Group>)
    ensures multiset(Insert(x, s)) == multiset(s) + multiset{x}
  {
    if s != [] && Members(x) > Members(s[0]) {
      InsertPermutes(x, s[1..]);
      assert Insert(x, s) == [s[0]] + Insert(x, s[1..]);
      assert s == [s[0]] + s[1..];
    }
  }

  lemma {:induction false} InsertElements(x: Group, s: seq<Group>)
    ensures forall y :: y in Insert(x, s) ==> y == x || y in s
  {
    if s != [] && Members(x) > Members(s[0]) {
      InsertElements(x, s[1..]);
      assert Insert(x, s) == [s[0]] + Insert(x, s[1..]);
    }
  }

  lemma {:induction false} InsertSorted(x: Group, s: seq<Group>)
    requires Sorted(s)
    ensures Sorted(Insert(x, s))
  {
    if s != [] && Members(x) > Members(s[0]) {
      var r := Insert(x, s);
      var r' := Insert(x, s[1..]);
      InsertSorted(x, s[1..]);
      InsertElements(x, s[1..]);
      assert r == [s[0]] + r';
      forall j | 0 < j < |r| ensures Members(r[0]) <= Members(r[j]) {
        assert r[j] == r'[j - 1];
        assert r[j] in r';
      }
    }
  }

  /** The count class of `v` in a sequence with a given head. */
  lemma WithMembersCons(y: Group, t: seq<Group>, v: int)
    ensures WithMembers([y] + t, v) == (if Members(y) == v then [y] else []) + WithMembers(t, v)
  {
    assert ([y] + t)[1..] == t;
  }

  lemma {:induction false} InsertStable(x: Group, s: seq<Group>, v: int)
    ensures WithMembers(Insert(x, s), v) == (if Members(x) == v then [x] else []) + WithMembers(s, v)
  {
    if s != [] && Members(x) > Members(s[0]) {
      assert Insert(x, s) == [s[0]] + Insert(x, s[1..]);
      WithMembersCons(s[0], Insert(x, s[1..]), v);
      InsertStable(x, s[1..], v);
      assert s == [s[0]] + s[1..];
      WithMembersCons(s[0], s[1..], v);
    } else {
      assert Insert(x, s) == [x] + s;
      WithMembersCons(x, s, v);
    }
  }

  lemma {:induction false} SortIsSorted(s: seq<Group>)
    ensures Sorted(SortByMembers(s))
  {
    if s != [] {
      SortIsSorted(s[1..]);
      InsertSorted(s[0], SortByMembers(s[1..]));
    }
  }

  lemma {:induction false} SortPermutes(s: seq<Group>)
    ensures multiset(SortByMembers(s)) == multiset(s)
  {
    if s != [] {
      SortPermutes(s[1..]);
      InsertPermutes(s[0], SortByMembers(s[1..]));
      assert s == [s[0]] + s[1..];
    }
  }

  lemma {:induction false} SortIsStable(s: seq<Group>, v: int)
    ensures WithMembers(SortByMembers(s), v) == WithMembers(s, v)
  {
    if s != [] {
      SortIsStable(s[1..], v);
      InsertStable(s[0], SortByMembers(s[1..]), v);
      assert s == [s[0]] + s[1..];
      WithMembersCons(s[0], s[1..], v);
    }
  }

  /** The sort orders by member count, loses and adds nothing, and keeps ties in input order. */
  lemma SortByMembersCorrect(s: seq<Group>)
    ensures Sorted(SortByMembers(s))
    ensures multiset(SortByMembers(s)) == multiset(s)
    ensures forall v :: WithMembers(SortByMembers(s), v) == WithMembers(s, v)
  {
    SortIsSorted(s);
    SortPermutes(s);
    forall v ensures WithMembers(SortByMembers(s), v) == WithMembers(s, v) {
      SortIsStable(s, v);
    }
  }

  /** The head of a sorted sequence has no more members than any count class present in it. */
  lemma HeadIsFewest(a: seq<Group>, v: int)
    requires Sorted(a) && a != []
    requires WithMembers(a, v) != []
    ensures Members(a[0]) <= v
  {
    var w := WithMembers(a, v);
    WithMembersIn(a, v);
    assert w[0] in a && Members(w[0]) == v;
  }

  /** Dropping equal heads keeps two sequences in agreement on a count class. */
  lemma TailAgrees(a: seq<Group>, b: seq<Group>, v: int)
    requires a != [] && b != [] && a[0] == b[0]
    requires WithMembers(a, v) == WithMembers(b, v)
    ensures WithMembers(a[1..], v) == WithMembers(b[1..], v)
  {
    var wa, wb := WithMembers(a[1..], v), WithMembers(b[1..], v);
    if Members(a[0]) == v {
      assert WithMembers(a, v) == [a[0]] + wa;
      assert WithMembers(b, v) == [a[0]] + wb;
      assert wa == ([a[0]] + wa)[1..];
      assert wb == ([a[0]] + wb)[1..];
    } else {
      assert WithMembers(a, v) == wa;
      assert WithMembers(b, v) == wb;
    }
  }

  lemma HeadHasClass(s: seq<Group>)
    requires s != []
    ensures WithMembers(s, Members(s[0])) != []
  {
  }

  /** Two sorted sequences that agree on every member-count class are equal. */
  lemma {:induction false} SortedStableUnique(a: seq<Group>, b: seq<Group>)
    requires Sorted(a) && Sorted(b)
    requires forall v :: WithMembers(a, v) == WithMembers(b, v)
    ensures a == b
    decreases |a| + |b|
  {
    if a == [] && b != [] {
      HeadHasClass(b);
      assert false;
    } else if a != [] && b == [] {
      HeadHasClass(a);
      assert false;
    } else if a != [] {
      var ma, mb := Members(a[0]), Members(b[0]);
      assert WithMembers(a, mb) == WithMembers(b, mb);
      assert WithMembers(a, ma) == WithMembers(b, ma);
      HeadIsFewest(a, mb);
      HeadIsFewest(b, ma);
      assert WithMembers(a, ma)[0] == a[0];
      assert WithMembers(b, mb)[0] == b[0];
      forall v ensures WithMembers(a[1..], v) == WithMembers(b[1..], v) {
        TailAgrees(a, b, v);
      }
      SortedStableUnique(a[1..], b[1..]);
      assert a == [a[0]] + a[1..] && b == [b[0]] + b[1..];
    }
  }

  /**
   * Any sorted arrangement of a bucket that keeps equal member counts in input
   * order, which is what a stable sort produces, is the one this model computes.
   */
  lemma StableSortIsUnique(s: seq<Group>, t: seq<Group>)
    requires Sorted(t)
    requires forall v :: WithMembers(t, v) == WithMembers(s, v)
    ensures t == SortByMembers(s)
  {
    SortByMembersCorrect(s);
    SortedStableUnique(t, SortByMembers(s));
  }

  lemma {:induction false} WithMembersOfPrefix(s: seq<Group>, n: nat, v: int)
    requires n <= |s|
    ensures WithMembers(s[..n], v) <= WithMembers(s, v)
  {
    if n > 0 {
      assert s[..n][1..] == s[1..][..n - 1];
      WithMembersOfPrefix(s[1..], n - 1, v);
    }
  }

  /**
   * The ranked groups: at most `TopN`, as many as the bucket allows, ascending
   * by member count, drawn from the bucket, and with equal counts in input order.
   */
  lemma RankCorrect(bucket: seq<Group>)
    ensures |Rank(bucket)| == Min(TopN, |bucket|)
    ensures Sorted(Rank(bucket))
    ensures multiset(Rank(bucket)) <= multiset(bucket)
    ensures forall v :: WithMembers(Rank(bucket), v) <= WithMembers(bucket, v)
  {
    var t := SortByMembers(bucket);
    var n := Min(TopN, |bucket|);
    SortByMembersCorrect(bucket);
    assert t == t[..n] + t[n..];
    assert multiset(t) == multiset(t[..n]) + multiset(t[n..]);
    forall v ensures WithMembers(Rank(bucket), v) <= WithMembers(bucket, v) {
      WithMembersOfPrefix(t, n, v);
    }
  }

  /** A group left out of the ranking occurs in the sorted bucket past the cut. */
  lemma CutGroupIsPastCut(bucket: seq<Group>, g: Group) returns (j: nat)
    requires g in multiset(bucket) - multiset(Rank(bucket))
    ensures Min(TopN, |bucket|) <= j < |bucket| && SortByMembers(bucket)[j] == g
  {
    var t := SortByMembers(bucket);
    var n := Min(TopN, |bucket|);
    SortByMembersCorrect(bucket);
    assert t == t[..n] + t[n..];
    assert multiset(t) == multiset(t[..n]) + multiset(t[n..]);
    assert g in multiset(t[n..]);
    var m :| 0 <= m < |t[n..]| && t[n..][m] == g;
    j := n + m;
  }

  /** No group left out of the ranking has fewer members than a ranked one. */
  lemma RankKeepsFewest(bucket: seq<Group>, g: Group, i: nat)
    requires g in multiset(bucket) - multiset(Rank(bucket))
    requires i < |Rank(bucket)|
    ensures Members(Rank(bucket)[i]) <= Members(g)
  {
    var j := CutGroupIsPastCut(bucket, g);
    SortByMembersCorrect(bucket);
    assert Rank(bucket)[i] == SortByMembers(bucket)[i];
  }
}
