/** `std::sort` by a key. The order among equal keys is not promised: every caller may rely on
    `SortedPermutation` alone. */
module Sorting {

  ghost predicate SortedBy<T>(s: seq<T>, key: T -> int) {
    forall i, j | 0 <= i < j < |s| :: key(s[i]) <= key(s[j])
  }

  ghost predicate SortedPermutation<T>(before: seq<T>, after: seq<T>, key: T -> int) {
    && multiset(before) == multiset(after)
    && SortedBy(after, key)
  }

  /** Stands for `std::sort`. */
  method Sort<T>(s: seq<T>, key: T -> int) returns (r: seq<T>)
    ensures SortedPermutation(s, r, key)
  {
    r := [];
    for n := 0 to |s|
      invariant SortedPermutation(s[..n], r, key)
    {
      r := Insert(r, s[n], key);
      assert s[..n + 1] == s[..n] + [s[n]];
    }
    assert s[..|s|] == s;
  }

  method Insert<T>(s: seq<T>, x: T, key: T -> int) returns (r: seq<T>)
    requires SortedBy(s, key)
    ensures multiset(r) == multiset(s + [x])
    ensures SortedBy(r, key)
  {
    var i := 0;
    while i < |s| && key(s[i]) <= key(x)
      invariant 0 <= i <= |s|
      invariant forall j | 0 <= j < i :: key(s[j]) <= key(x)
    {
      i := i + 1;
    }
    r := Inserted(s, x, i);
    InsertedMeans(s, x, i);
    assert forall j | 0 <= j < |r| :: r[j] == if j < i then s[j] else if j == i then x else s[j - 1];
  }

  function Inserted<T>(s: seq<T>, x: T, i: nat): (r: seq<T>)
    requires i <= |s|
    ensures |r| == |s| + 1
  {
    s[..i] + [x] + s[i..]
  }

  function Without<T>(s: seq<T>, i: nat): (r: seq<T>)
    requires i < |s|
    ensures |r| == |s| - 1
  {
    s[..i] + s[i + 1..]
  }

  lemma InsertedMeans<T>(s: seq<T>, x: T, i: nat)
    requires i <= |s|
    ensures multiset(Inserted(s, x, i)) == multiset(s) + multiset{x}
  {
    assert s == s[..i] + s[i..];
  }

  lemma WithoutMeans<T>(s: seq<T>, i: nat)
    requires i < |s|
    ensures multiset(Without(s, i)) == multiset(s) - multiset{s[i]}
  {
    assert s == s[..i] + [s[i]] + s[i + 1..];
  }

  // Permutations

  lemma PermutationMembers<T>(a: seq<T>, b: seq<T>)
    requires multiset(a) == multiset(b)
    ensures |a| == |b|
    ensures forall x :: x in a <==> x in b
  {
    assert |a| == |multiset(a)| == |multiset(b)| == |b|;
    forall x
      ensures x in a <==> x in b
    {
      assert x in a <==> x in multiset(a);
      assert x in b <==> x in multiset(b);
    }
  }

  /** Two occurrences in one order are two occurrences in the other. */
  lemma {:induction false} PermutationPair<T>(a: seq<T>, b: seq<T>, i: nat, j: nat) returns (p: nat, q: nat)
    requires multiset(a) == multiset(b) && i < j < |b|
    ensures p < |a| && q < |a| && p != q && a[p] == b[i] && a[q] == b[j]
  {
    PermutationMembers(a, b);
    assert b[i] in b && b[i] in a;
    p :| 0 <= p < |a| && a[p] == b[i];
    var rest, others := Without(a, p), Without(b, i);
    WithoutMeans(a, p);
    WithoutMeans(b, i);
    PermutationMembers(rest, others);
    assert others[j - 1] == b[j];
    assert b[j] in others && b[j] in rest;
    var r :| 0 <= r < |rest| && rest[r] == b[j];
    q := if r < p then r else r + 1;
  }
}
