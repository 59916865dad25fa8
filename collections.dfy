/**
 * The two shapes every user selector is built from: an order-preserving
 * filter over a sequence, and a map keyed by a property of each element
 * (later elements overwrite earlier ones that share a key).
 */
module Collections {

  /** `r` can be obtained from `s` by deleting elements, without reordering. */
  ghost predicate IsSubsequence<T(!new)>(r: seq<T>, s: seq<T>)
    decreases |s|
  {
    if r == [] then true
    else if s == [] then false
    else (r[0] == s[0] && IsSubsequence(r[1..], s[1..])) || IsSubsequence(r, s[1..])
  }

  /**
   * The elements of `s` that satisfy `keep`, in their original order; what
   * exactly it keeps is stated by FilterExact.
   */
  function Filter<T(!new)>(s: seq<T>, keep: T -> bool): (r: seq<T>)
    ensures |r| <= |s|
  {
    if s == [] then []
    else if keep(s[0]) then [s[0]] + Filter(s[1..], keep)
    else Filter(s[1..], keep)
  }

  /**
   * The filter keeps every occurrence of a kept value and no occurrence of any
   * other, without reordering: it is exactly the kept part of `s`.
   */
  lemma {:induction false} FilterExact<T(!new)>(s: seq<T>, keep: T -> bool)
    ensures forall x :: x in Filter(s, keep) <==> x in s && keep(x)
    ensures forall x :: multiset(Filter(s, keep))[x] == if keep(x) then multiset(s)[x] else 0
    ensures IsSubsequence(Filter(s, keep), s)
  {
    if s != [] {
      var rest := Filter(s[1..], keep);
      FilterExact(s[1..], keep);
      assert multiset(s) == multiset{s[0]} + multiset(s[1..]) by {
        assert s == [s[0]] + s[1..];
      }
      if keep(s[0]) {
        assert multiset([s[0]] + rest) == multiset{s[0]} + multiset(rest);
        assert ([s[0]] + rest)[1..] == rest;
      }
    }
  }

  /** When every element is kept the filter is the identity. */
  lemma {:induction false} FilterKeepsAll<T(!new)>(s: seq<T>, keep: T -> bool)
    requires forall i :: 0 <= i < |s| ==> keep(s[i])
    ensures Filter(s, keep) == s
  {
    if s != [] {
      FilterKeepsAll(s[1..], keep);
    }
  }

  /** `keep` rejects the element at `i` and keeps every other element of `s`. */
  ghost predicate RejectsOnly<T(!new)>(s: seq<T>, i: nat, keep: T -> bool)
  {
    && i < |s|
    && !keep(s[i])
    && forall j :: 0 <= j < |s| && j != i ==> keep(s[j])
  }

  /** When exactly the element at `i` is rejected, the filter removes that one element. */
  lemma {:induction false} FilterDropsOne<T(!new)>(s: seq<T>, i: nat, keep: T -> bool)
    requires RejectsOnly(s, i, keep)
    ensures i < |s| && Filter(s, keep) == s[..i] + s[i + 1..]
  {
    if i == 0 {
      var rest := s[1..];
      forall k | 0 <= k < |rest| ensures keep(rest[k]) { assert rest[k] == s[k + 1]; }
      FilterKeepsAll(rest, keep);
    } else {
      var rest := s[1..];
      assert keep(s[0]);
      assert RejectsOnly(rest, i - 1, keep) by {
        forall j | 0 <= j < |rest| && j != i - 1 ensures keep(rest[j]) { assert rest[j] == s[j + 1]; }
      }
      FilterDropsOne(rest, i - 1, keep);
      assert s[..i] == [s[0]] + rest[..i - 1];
      assert s[i + 1..] == rest[i..];
    }
  }

  /**
   * One entry per distinct key of the elements of `s`; each key maps to an
   * element that carries it, the last such element of `s`.
   */
  function KeyBy<T(!new), K(==)>(s: seq<T>, key: T -> K): (m: map<K, T>)
    ensures m.Keys == set x | x in s :: key(x)
    ensures forall k :: k in m ==> m[k] in s && key(m[k]) == k
  {
    if s == [] then map[]
    else
      var init := s[..|s| - 1];
      var last := s[|s| - 1];
      assert s == init + [last];
      KeyBy(init, key)[key(last) := last]
  }

  /** Last write wins: an element whose key no later element shares is the one stored under it. */
  lemma {:induction false} KeyByLastWins<T(!new), K>(s: seq<T>, key: T -> K, i: nat)
    requires i < |s|
    requires forall j :: i < j < |s| ==> key(s[j]) != key(s[i])
    ensures key(s[i]) in KeyBy(s, key) && KeyBy(s, key)[key(s[i])] == s[i]
  {
    if i < |s| - 1 {
      var init := s[..|s| - 1];
      assert init[i] == s[i];
      KeyByLastWins(init, key, i);
    }
  }

  /** With pairwise distinct keys, the map has exactly one entry per element. */
  lemma {:induction false} KeyByCardinality<T(!new), K>(s: seq<T>, key: T -> K)
    requires forall i, j :: 0 <= i < j < |s| ==> key(s[i]) != key(s[j])
    ensures |KeyBy(s, key)| == |s|
  {
    if s != [] {
      var init := s[..|s| - 1];
      var last := s[|s| - 1];
      KeyByCardinality(init, key);
    }
  }
}
