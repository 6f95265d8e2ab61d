/** Levenshtein distance, and the linear-time test for a distance of at most one. */
module EditDistance {

  function Min(a: nat, b: nat): (m: nat)
    ensures m <= a && m <= b && (m == a || m == b)
  {
    if a <= b then a else b
  }

  /** The least number of insertions, deletions and substitutions that turn a into b. */
  function Levenshtein(a: string, b: string): nat
    decreases |a| + |b|
  {
    if a == [] then |b|
    else if b == [] then |a|
    else
      var substituted := Levenshtein(a[1..], b[1..]) + if a[0] == b[0] then 0 else 1;
      Min(substituted, Min(Levenshtein(a[1..], b), Levenshtein(a, b[1..])) + 1)
  }

  /** Distance at most one, by the first place where the words part. */
  predicate Near(a: string, b: string) {
    if a == [] then |b| <= 1
    else if b == [] then |a| <= 1
    else a[1..] == b || a == b[1..] || a[1..] == b[1..] || (a[0] == b[0] && Near(a[1..], b[1..]))
  }

  lemma {:induction false} DistanceZero(a: string, b: string)
    ensures Levenshtein(a, b) == 0 <==> a == b
    decreases |a| + |b|
  {
    if a != [] && b != [] {
      DistanceZero(a[1..], b[1..]);
      assert a == [a[0]] + a[1..] && b == [b[0]] + b[1..];
    }
  }

  lemma {:induction false} NearIsDistanceOne(a: string, b: string)
    ensures Near(a, b) <==> Levenshtein(a, b) <= 1
    decreases |a| + |b|
  {
    if a != [] && b != [] {
      DistanceZero(a[1..], b);
      DistanceZero(a, b[1..]);
      DistanceZero(a[1..], b[1..]);
      NearIsDistanceOne(a[1..], b[1..]);
    }
  }

  lemma {:induction false} NearSymmetric(a: string, b: string)
    ensures Near(a, b) == Near(b, a)
  {
    if a != [] && b != [] {
      NearSymmetric(a[1..], b[1..]);
    }
  }

  lemma {:induction false} NearSelf(a: string)
    ensures Near(a, a)
  {
    if a != [] {
      NearSelf(a[1..]);
    }
  }

  lemma {:induction false} NearLengths(a: string, b: string)
    requires Near(a, b)
    ensures |a| <= |b| + 1 && |b| <= |a| + 1
  {
    if a != [] && b != [] && a[1..] != b && a != b[1..] && a[1..] != b[1..] {
      NearLengths(a[1..], b[1..]);
    }
  }

  /** Equal first characters can be dropped. */
  lemma NearDropEqual(a: string, b: string)
    requires a != [] && b != [] && a[0] == b[0] && |a| <= |b| <= |a| + 1
    ensures Near(a, b) <==> Near(a[1..], b[1..])
  {
    if a[1..] == b[1..] {
      NearSelf(a[1..]);
    }
    if a == b[1..] && a[1..] != [] {
      assert a[1..] == b[1..][1..];
    }
  }

  /** After unequal first characters the rest must agree. */
  lemma NearAfterMismatch(a: string, b: string)
    requires a != [] && b != [] && a[0] != b[0] && |a| <= |b| <= |a| + 1
    ensures |a| == |b| ==> (Near(a, b) <==> a[1..] == b[1..])
    ensures |a| < |b| ==> (Near(a, b) <==> a == b[1..])
  {
    if |a| == |b| {
      assert a == b[1..] ==> |a| == |b| - 1;
    }
  }

  lemma Tail(a: string, i: nat)
    requires i < |a|
    ensures a[i..] != [] && a[i..][0] == a[i] && a[i..][1..] == a[i + 1..] && a[i..] == [a[i]] + a[i + 1..]
  {
  }

  /** Words of equal length: count the substitutions. */
  method AtMostOneSubstitution(a: string, b: string) returns (r: bool)
    requires |a| == |b|
    ensures r <==> Near(a, b)
  {
    var diff, i := 0, 0;
    assert a[0..] == a && b[0..] == b;
    while i < |a|
      invariant 0 <= i <= |a| && 0 <= diff <= 1
      invariant diff == 0 ==> (Near(a, b) <==> Near(a[i..], b[i..]))
      invariant diff == 1 ==> (Near(a, b) <==> a[i..] == b[i..])
    {
      Tail(a, i);
      Tail(b, i);
      if a[i] != b[i] {
        NearAfterMismatch(a[i..], b[i..]);
        diff := diff + 1;
        if diff > 1 {
          return false;
        }
      } else {
        NearDropEqual(a[i..], b[i..]);
      }
      i := i + 1;
    }
    return true;
  }

  /** One word longer by one: align with a single deletion in the longer one. */
  method AlignWithOneDeletion(s: string, t: string) returns (r: bool)
    requires |t| == |s| + 1
    ensures r <==> Near(s, t)
  {
    var i, j, skipped := 0, 0, false;
    assert s[0..] == s && t[0..] == t;
    while i < |s| && j < |t|
      invariant 0 <= i <= |s| && 0 <= j <= |t| && j == i + if skipped then 1 else 0
      invariant !skipped ==> (Near(s, t) <==> Near(s[i..], t[j..]))
      invariant skipped ==> (Near(s, t) <==> s[i..] == t[j..])
      decreases |t| - j
    {
      Tail(s, i);
      Tail(t, j);
      if s[i] == t[j] {
        if !skipped {
          NearDropEqual(s[i..], t[j..]);
        }
        i := i + 1;
        j := j + 1;
      } else {
        if skipped {
          return false;
        }
        NearAfterMismatch(s[i..], t[j..]);
        skipped := true;
        j := j + 1;
      }
    }
    return true;
  }

  /** The linear test decides exactly Levenshtein distance at most one. */
  method EditDistLE1(a: string, b: string) returns (r: bool)
    ensures r <==> Levenshtein(a, b) <= 1
  {
    NearIsDistanceOne(a, b);
    NearSymmetric(a, b);
    if Near(a, b) {
      NearLengths(a, b);
    }
    if |a| > |b| + 1 || |b| > |a| + 1 {
      return false;
    }
    if |a| == |b| {
      r := AtMostOneSubstitution(a, b);
    } else if |a| < |b| {
      r := AlignWithOneDeletion(a, b);
    } else {
      r := AlignWithOneDeletion(b, a);
    }
  }
}
