/** A multiset equality is a permutation of positions, and conversely. */
module Permutations {

  ghost predicate IsPermutation(p: seq<nat>, n: nat) {
    && |p| == n
    && (forall i :: 0 <= i < n ==> p[i] < n)
    && (forall i, j :: 0 <= i < j < n ==> p[i] != p[j])
  }

  function Without<T>(s: seq<T>, j: nat): seq<T>
    requires j < |s|
  {
    s[..j] + s[j + 1..]
  }

  lemma WithoutMultiset<T>(s: seq<T>, j: nat)
    requires j < |s|
    ensures multiset(Without(s, j)) == multiset(s) - multiset{s[j]}
    ensures multiset(s) == multiset(Without(s, j)) + multiset{s[j]}
  {
    assert s == s[..j] + [s[j]] + s[j + 1..];
  }

  /** Position `q` of the shortened list, seen in the full list. */
  function Widen(q: nat, j: nat): nat { if q < j then q else q + 1 }

  function Narrow(q: nat, j: nat): nat
    requires q != j
  {
    if q < j then q else q - 1
  }

  function Extend(q: seq<nat>, j: nat): (p: seq<nat>)
    ensures |p| == |q| + 1 && p[0] == j && forall i :: 0 <= i < |q| ==> p[i + 1] == Widen(q[i], j)
  {
    [j] + seq(|q|, i requires 0 <= i < |q| => Widen(q[i], j))
  }

  function Shrink(p: seq<nat>): (q: seq<nat>)
    requires p != [] && forall i :: 1 <= i < |p| ==> p[i] != p[0]
    ensures |q| == |p| - 1 && forall i :: 0 <= i < |q| ==> q[i] == Narrow(p[i + 1], p[0])
  {
    seq(|p| - 1, i requires 0 <= i < |p| - 1 => Narrow(p[i + 1], p[0]))
  }

  lemma ExtendPermutes<T>(s: seq<T>, t: seq<T>, q: seq<nat>, j: nat)
    requires |s| == |t| && j < |t| && t[j] == s[0]
    requires IsPermutation(q, |s| - 1) && forall i :: 0 <= i < |s| - 1 ==> s[i + 1] == Without(t, j)[q[i]]
    ensures IsPermutation(Extend(q, j), |s|)
    ensures forall i :: 0 <= i < |s| ==> s[i] == t[Extend(q, j)[i]]
  {
    var p := Extend(q, j);
    forall i | 0 <= i < |s| ensures p[i] < |s| && s[i] == t[p[i]] {
      if i > 0 { assert p[i] == Widen(q[i - 1], j) && s[i - 1 + 1] == Without(t, j)[q[i - 1]]; }
    }
    forall i, k | 0 <= i < k < |s| ensures p[i] != p[k] {
      assert p[k] == Widen(q[k - 1], j);
      if i > 0 { assert p[i] == Widen(q[i - 1], j) && q[i - 1] != q[k - 1]; }
    }
  }

  lemma ShrinkPermutes<T>(s: seq<T>, t: seq<T>, p: seq<nat>)
    requires s != [] && |s| == |t| && IsPermutation(p, |s|)
    requires forall i :: 0 <= i < |s| ==> s[i] == t[p[i]]
    ensures forall i :: 1 <= i < |p| ==> p[i] != p[0]
    ensures IsPermutation(Shrink(p), |s| - 1)
    ensures forall i :: 0 <= i < |s| - 1 ==> s[1..][i] == Without(t, p[0])[Shrink(p)[i]]
  {
    var q := Shrink(p);
    forall i | 0 <= i < |s| - 1 ensures q[i] < |s| - 1 && s[1..][i] == Without(t, p[0])[q[i]] {
      assert s[1..][i] == s[i + 1] == t[p[i + 1]];
    }
    forall i, k | 0 <= i < k < |s| - 1 ensures q[i] != q[k] {
      assert p[i + 1] != p[k + 1];
    }
  }

  lemma {:induction false} PermutationOf<T>(s: seq<T>, t: seq<T>) returns (p: seq<nat>)
    requires multiset(s) == multiset(t)
    ensures |s| == |t| && IsPermutation(p, |s|)
    ensures forall i :: 0 <= i < |s| ==> s[i] == t[p[i]]
  {
    assert |s| == |multiset(s)| == |multiset(t)| == |t|;
    if s == [] {
      p := [];
    } else {
      assert s[0] in multiset(t);
      var j :| 0 <= j < |t| && t[j] == s[0];
      SameWithout(s, t, j);
      var q := PermutationOf(s[1..], Without(t, j));
      ExtendPermutes(s, t, q, j);
      p := Extend(q, j);
    }
  }

  /** Dropping one shared element keeps two lists equal as multisets, both ways. */
  lemma SameWithout<T>(s: seq<T>, t: seq<T>, j: nat)
    requires s != [] && j < |t| && t[j] == s[0]
    ensures multiset(s) == multiset(t) <==> multiset(s[1..]) == multiset(Without(t, j))
  {
    WithoutMultiset(t, j);
    WithoutMultiset(s, 0);
    assert Without(s, 0) == s[1..];
  }

  lemma {:induction false} PermutedSame<T>(s: seq<T>, t: seq<T>, p: seq<nat>)
    requires |s| == |t| && IsPermutation(p, |s|)
    requires forall i :: 0 <= i < |s| ==> s[i] == t[p[i]]
    ensures multiset(s) == multiset(t)
  {
    if s != [] {
      ShrinkPermutes(s, t, p);
      PermutedSame(s[1..], Without(t, p[0]), Shrink(p));
      SameWithout(s, t, p[0]);
    }
  }
}
