// Common subsequences and edit scripts, by position so that suffixes need no slicing.
module Subsequences {

  /** s[k..] is a subsequence of t[i..]. */
  predicate IsSubsequence<T(==)>(s: seq<T>, k: nat, t: seq<T>, i: nat)
    requires k <= |s| && i <= |t|
    decreases |t| - i
  {
    k == |s| ||
    (i < |t| && ((s[k] == t[i] && IsSubsequence(s, k + 1, t, i + 1)) || IsSubsequence(s, k, t, i + 1)))
  }

  /** s is common to a[i..] and b[j..]. */
  predicate IsCommon<T(==)>(s: seq<T>, a: seq<T>, i: nat, b: seq<T>, j: nat)
    requires i <= |a| && j <= |b|
  {
    IsSubsequence(s, 0, a, i) && IsSubsequence(s, 0, b, j)
  }

  /** n is the greatest length of a common subsequence of a[i..] and b[j..]. */
  ghost predicate IsMaximumCommon<T(!new)>(n: int, a: seq<T>, i: nat, b: seq<T>, j: nat)
    requires i <= |a| && j <= |b|
  {
    && (exists s :: IsCommon(s, a, i, b, j) && |s| == n)
    && (forall s :: IsCommon(s, a, i, b, j) ==> |s| <= n)
  }

  /** The recurrence by which the greatest length is computed. */
  function Lcs<T(==)>(a: seq<T>, i: nat, b: seq<T>, j: nat): (n: nat)
    requires i <= |a| && j <= |b|
    ensures n <= |a| - i && n <= |b| - j
    decreases |a| - i + |b| - j
  {
    if i == |a| || j == |b| then 0
    else if a[i] == b[j] then Lcs(a, i + 1, b, j + 1) + 1
    else
      var (down, right) := (Lcs(a, i + 1, b, j), Lcs(a, i, b, j + 1));
      if down >= right then down else right
  }

  lemma {:induction false} DropHead<T>(s: seq<T>, k: nat, t: seq<T>, i: nat)
    requires k < |s| && i <= |t| && IsSubsequence(s, k, t, i)
    ensures i < |t| && IsSubsequence(s, k + 1, t, i + 1)
    decreases |t| - i
  {
    if !(s[k] == t[i] && IsSubsequence(s, k + 1, t, i + 1)) {
      DropHead(s, k, t, i + 1);
      Weaken(s, k + 1, t, i + 2);
    }
  }

  /** A subsequence of a suffix is one of the suffix before it. */
  lemma Weaken<T>(s: seq<T>, k: nat, t: seq<T>, i: nat)
    requires k <= |s| && 0 < i <= |t| && IsSubsequence(s, k, t, i)
    ensures IsSubsequence(s, k, t, i - 1)
  {
  }

  lemma {:induction false} CommonIsBounded<T>(s: seq<T>, k: nat, a: seq<T>, i: nat, b: seq<T>, j: nat)
    requires k <= |s| && i <= |a| && j <= |b|
    requires IsSubsequence(s, k, a, i) && IsSubsequence(s, k, b, j)
    ensures |s| - k <= Lcs(a, i, b, j)
    decreases |a| - i + |b| - j
  {
    if k == |s| {
    } else if a[i] == b[j] {
      DropHead(s, k, a, i);
      DropHead(s, k, b, j);
      CommonIsBounded(s, k + 1, a, i + 1, b, j + 1);
    } else if s[k] != a[i] {
      CommonIsBounded(s, k, a, i + 1, b, j);
    } else {
      CommonIsBounded(s, k, a, i, b, j + 1);
    }
  }

  /** Prepending a matched head to a subsequence of the tail. */
  lemma {:induction false} Prepend<T>(x: T, s: seq<T>, k: nat, t: seq<T>, i: nat)
    requires k <= |s| && i <= |t| && IsSubsequence(s, k, t, i)
    ensures IsSubsequence([x] + s, k + 1, t, i)
    decreases |t| - i
  {
    if k < |s| {
      assert ([x] + s)[k + 1] == s[k];
      if s[k] == t[i] && IsSubsequence(s, k + 1, t, i + 1) {
        Prepend(x, s, k + 1, t, i + 1);
      } else {
        Prepend(x, s, k, t, i + 1);
      }
    }
  }

  lemma {:induction false} LcsWitness<T>(a: seq<T>, i: nat, b: seq<T>, j: nat) returns (s: seq<T>)
    requires i <= |a| && j <= |b|
    ensures IsCommon(s, a, i, b, j) && |s| == Lcs(a, i, b, j)
    decreases |a| - i + |b| - j
  {
    if i == |a| || j == |b| {
      s := [];
    } else if a[i] == b[j] {
      var r := LcsWitness(a, i + 1, b, j + 1);
      Prepend(a[i], r, 0, a, i + 1);
      Prepend(a[i], r, 0, b, j + 1);
      s := [a[i]] + r;
    } else if Lcs(a, i + 1, b, j) >= Lcs(a, i, b, j + 1) {
      s := LcsWitness(a, i + 1, b, j);
    } else {
      s := LcsWitness(a, i, b, j + 1);
    }
  }

  /** The recurrence computes the greatest length of a common subsequence. */
  lemma LcsIsMaximumCommon<T(!new)>(a: seq<T>, i: nat, b: seq<T>, j: nat)
    requires i <= |a| && j <= |b|
    ensures IsMaximumCommon(Lcs(a, i, b, j), a, i, b, j)
  {
    var s := LcsWitness(a, i, b, j);
    forall s | IsCommon(s, a, i, b, j)
      ensures |s| <= Lcs(a, i, b, j)
    {
      CommonIsBounded(s, 0, a, i, b, j);
    }
  }

  /** Advancing on either side loses at most one. */
  lemma LcsMonotone<T>(a: seq<T>, i: nat, b: seq<T>, j: nat)
    requires i <= |a| && j <= |b|
    ensures i < |a| ==> Lcs(a, i + 1, b, j) <= Lcs(a, i, b, j)
    ensures j < |b| ==> Lcs(a, i, b, j + 1) <= Lcs(a, i, b, j)
  {
    if i < |a| {
      var s := LcsWitness(a, i + 1, b, j);
      Weaken(s, 0, a, i + 1);
      CommonIsBounded(s, 0, a, i, b, j);
    }
    if j < |b| {
      var s := LcsWitness(a, i, b, j + 1);
      Weaken(s, 0, b, j + 1);
      CommonIsBounded(s, 0, a, i, b, j);
    }
  }

  /** A common subsequence as long as both sequences leaves no difference. */
  lemma {:induction false} FullLcsMeansEqual<T>(a: seq<T>, i: nat, b: seq<T>, j: nat)
    requires i <= |a| && j <= |b|
    ensures Lcs(a, i, b, j) == |a| - i == |b| - j <==> a[i..] == b[j..]
    decreases |a| - i
  {
    if i == |a| || j == |b| {
    } else {
      assert a[i..] == [a[i]] + a[i + 1..] && b[j..] == [b[j]] + b[j + 1..];
      if a[i] == b[j] {
        FullLcsMeansEqual(a, i + 1, b, j + 1);
      } else {
        assert a[i..][0] != b[j..][0];
      }
    }
  }

  // ------------------------------------------------------------------
  // Edit scripts
  // ------------------------------------------------------------------

  datatype Edit<T> = Keep | Drop | Insert(line: T)

  /** The script's result on a, or failure when it runs past the end. */
  function Play<T>(es: seq<Edit<T>>, a: seq<T>): (r: (bool, seq<T>)) {
    if es == [] then (a == [], [])
    else match es[0]
      case Keep => if a == [] then (false, []) else var (ok, out) := Play(es[1..], a[1..]); (ok, [a[0]] + out)
      case Drop => if a == [] then (false, []) else Play(es[1..], a[1..])
      case Insert(line) => var (ok, out) := Play(es[1..], a); (ok, [line] + out)
  }

  /** Lines deleted plus lines inserted. */
  function Cost<T>(es: seq<Edit<T>>): nat {
    if es == [] then 0 else Cost(es[1..]) + (if es[0].Keep? then 0 else 1)
  }

  lemma {:induction false} ScriptCost<T>(es: seq<Edit<T>>, a: seq<T>, i: nat, b: seq<T>, j: nat)
    requires i <= |a| && j <= |b| && Play(es, a[i..]) == (true, b[j..])
    ensures Cost(es) >= |a| - i + |b| - j - 2 * Lcs(a, i, b, j)
    decreases |es|
  {
    if es == [] {
    } else {
      LcsMonotone(a, i, b, j);
      match es[0]
      case Keep =>
        assert a[i..][1..] == a[i + 1..] && b[j..][1..] == b[j + 1..];
        assert a[i] == a[i..][0] == b[j..][0] == b[j];
        assert Play(es[1..], a[i + 1..]).1 == b[j..][1..];
        ScriptCost(es[1..], a, i + 1, b, j + 1);
      case Drop =>
        assert a[i..][1..] == a[i + 1..];
        ScriptCost(es[1..], a, i + 1, b, j);
      case Insert(line) =>
        assert b[j..][1..] == b[j + 1..];
        assert Play(es[1..], a[i..]).1 == b[j..][1..];
        ScriptCost(es[1..], a, i, b, j + 1);
    }
  }
}
