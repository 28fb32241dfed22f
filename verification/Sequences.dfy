/** Sequences with one element taken out, rearranged sequences, positions. */
module Sequences {

  function Without<T>(s: seq<T>, m: nat): (less: seq<T>)
    requires m < |s|
    ensures |less| == |s| - 1 && forall k | 0 <= k < |less| :: less[k] == s[if k < m then k else k + 1]
  {
    s[..m] + s[m + 1..]
  }

  ghost predicate Distinct(s: seq<nat>) {
    forall j, k | 0 <= j < k < |s| :: s[j] != s[k]
  }

  lemma WithoutMembers(s: seq<nat>, m: nat)
    requires Distinct(s) && m < |s|
    ensures Distinct(Without(s, m))
    ensures forall i :: i in Without(s, m) <==> i in s && i != s[m]
  {
    var less := Without(s, m);
    forall i | i in s && i != s[m]
      ensures i in less
    {
      var k :| 0 <= k < |s| && s[k] == i;
      assert less[if k < m then k else k - 1] == i;
    }
  }

  lemma WithoutTail<T>(s: seq<T>, m: nat)
    requires 0 < m < |s|
    ensures Without(s, m)[0] == s[0] && Without(s, m)[1..] == Without(s[1..], m - 1)
  {
  }

  lemma WithoutMultiset<T>(s: seq<T>, m: nat)
    requires m < |s|
    ensures multiset(s) == multiset(Without(s, m)) + multiset{s[m]}
  {
    assert s == s[..m] + [s[m]] + s[m + 1..];
  }

  lemma SameWithoutFirst<T>(a: seq<T>, b: seq<T>) returns (i: nat)
    requires a != [] && multiset(a) == multiset(b)
    ensures i < |b| && b[i] == a[0] && multiset(Without(a, 0)) == multiset(Without(b, i))
  {
    assert a[0] in multiset(b);
    i :| 0 <= i < |b| && b[i] == a[0];
    WithoutMultiset(a, 0);
    WithoutMultiset(b, i);
    assert multiset(Without(a, 0)) == multiset(a) - multiset{a[0]};
    assert multiset(Without(b, i)) == multiset(b) - multiset{b[i]};
  }

  ghost predicate MapsTo<A, B>(m: map<A, B>, a: seq<A>, b: seq<B>) {
    |a| == |b| && forall i | 0 <= i < |a| :: a[i] in m && b[i] == m[a[i]]
  }

  /** A function applied to a rearrangement gives a rearrangement. */
  lemma {:induction false} MappedMultiset<A, B>(m: map<A, B>, a: seq<A>, b: seq<B>, a2: seq<A>, b2: seq<B>)
    requires MapsTo(m, a, b) && MapsTo(m, a2, b2) && multiset(a) == multiset(a2)
    ensures multiset(b) == multiset(b2)
    decreases |a|
  {
    if a == [] {
      assert |a2| == |multiset(a2)| == 0;
    } else {
      var i := SameWithoutFirst(a, a2);
      WithoutMultiset(b, 0);
      WithoutMultiset(b2, i);
      MappedMultiset(m, Without(a, 0), Without(b, 0), Without(a2, i), Without(b2, i));
    }
  }

  /** Distinct positions that cover everything pick a permutation. */
  lemma {:induction false} CompleteIsPermutation<T>(all: seq<T>, order: seq<nat>, picked: seq<T>)
    requires Distinct(order) && forall i: nat :: i in order <==> i < |all|
    requires |picked| == |order| && forall k | 0 <= k < |order| :: order[k] < |all| && picked[k] == all[order[k]]
    ensures multiset(picked) == multiset(all) && |order| == |all|
    decreases |all|
  {
    assert forall k | 0 <= k < |order| :: order[k] in order;
    if all != [] {
      var last := |all| - 1;
      assert last in order;
      var p :| 0 <= p < |order| && order[p] == last;
      WithoutMembers(order, p);
      var lessOrder, lessPicked := Without(order, p), Without(picked, p);
      assert forall k | 0 <= k < |lessOrder| :: lessOrder[k] in lessOrder;
      CompleteIsPermutation(all[..last], lessOrder, lessPicked);
      WithoutMultiset(picked, p);
      WithoutMultiset(all, last);
      assert Without(all, last) == all[..last];
    }
  }

  lemma NoneBefore<T>(s: seq<T>)
    ensures [] + s == s
  {
  }
}
