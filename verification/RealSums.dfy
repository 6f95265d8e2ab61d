/** Finite sums of reals, and their invariance under reordering. */
module RealSums {

  /** A product by name, so that proofs can treat it as one quantity. */
  function Times(a: real, b: real): real {
    a * b
  }

  function SumTo(s: seq<real>, n: nat): real
    requires n <= |s|
  {
    if n == 0 then 0.0 else SumTo(s, n - 1) + s[n - 1]
  }

  function Sum(s: seq<real>): real {
    SumTo(s, |s|)
  }

  lemma SumToAgree(s: seq<real>, t: seq<real>, n: nat)
    requires n <= |s| && n <= |t|
    requires forall i :: 0 <= i < n ==> s[i] == t[i]
    ensures SumTo(s, n) == SumTo(t, n)
  {
  }

  predicate IsPermutation(perm: seq<nat>, n: nat) {
    && |perm| == n
    && (forall i :: 0 <= i < n ==> perm[i] < n)
    && (forall i, j :: 0 <= i < j < n ==> perm[i] != perm[j])
    && (forall p :: 0 <= p < n ==> p in perm)
  }

  function Reordered<T>(s: seq<T>, perm: seq<nat>): (t: seq<T>)
    requires IsPermutation(perm, |s|)
    ensures |t| == |s| && forall i :: 0 <= i < |s| ==> t[i] == s[perm[i]]
  {
    seq(|s|, i requires 0 <= i < |s| => s[perm[i]])
  }

  function Without<T>(s: seq<T>, k: nat): (t: seq<T>)
    requires k < |s|
    ensures |t| == |s| - 1
    ensures forall i :: 0 <= i < |t| ==> t[i] == if i < k then s[i] else s[i + 1]
  {
    s[..k] + s[k + 1..]
  }

  lemma {:induction false} SumToWithout(s: seq<real>, k: nat, n: nat)
    requires k < |s| && n < |s|
    ensures n <= k ==> SumTo(Without(s, k), n) == SumTo(s, n)
    ensures n >= k ==> SumTo(Without(s, k), n) == SumTo(s, n + 1) - s[k]
  {
    if n > 0 {
      SumToWithout(s, k, n - 1);
    }
  }

  lemma FindLargest(perm: seq<nat>, n: nat) returns (k: nat)
    requires n > 0 && IsPermutation(perm, n)
    ensures |perm| == n && k < n && perm[k] == n - 1
  {
    assert n - 1 in perm;
    k :| 0 <= k < n && perm[k] == n - 1;
  }

  lemma WithoutLargest(perm: seq<nat>, n: nat, k: nat)
    requires n > 0 && IsPermutation(perm, n) && k < n && perm[k] == n - 1
    ensures IsPermutation(Without(perm, k), n - 1)
  {
    var perm' := Without(perm, k);
    forall p | 0 <= p < n - 1 ensures p in perm' {
      assert p in perm;
      var i :| 0 <= i < n && perm[i] == p;
      assert perm'[if i < k then i else i - 1] == p;
    }
  }

  lemma ReorderedWithout(s: seq<real>, perm: seq<nat>, k: nat)
    requires s != [] && IsPermutation(perm, |s|) && k < |s| && perm[k] == |s| - 1
    requires IsPermutation(Without(perm, k), |s| - 1)
    ensures Reordered(s[..|s| - 1], Without(perm, k)) == Without(Reordered(s, perm), k)
  {
  }

  /** Reordering the terms keeps the sum. */
  lemma {:induction false} SumReordered(s: seq<real>, perm: seq<nat>)
    requires IsPermutation(perm, |s|)
    ensures Sum(Reordered(s, perm)) == Sum(s)
  {
    hide IsPermutation, Reordered, Without;
    var n := |s|;
    if n == 0 { return; }
    var k := FindLargest(perm, n);
    WithoutLargest(perm, n, k);
    ReorderedWithout(s, perm, k);
    SumReordered(s[..n - 1], Without(perm, k));
    SumToWithout(Reordered(s, perm), k, n - 1);
    SumToAgree(s, s[..n - 1], n - 1);
  }
}
