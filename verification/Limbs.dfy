// The field representation of the key agreement: sixteen signed 64-bit limbs
// in base 2^16.  Arithmetic on `int64` is checked by the verifier for
// overflow, so every method over limbs that verifies is overflow-free.
module Limbs {
  import opened Arithmetic

  newtype int64 = x: int | -0x8000_0000_0000_0000 <= x < 0x8000_0000_0000_0000
  newtype byte = x: int | 0 <= x < 256

  /** The prime 2^255 - 19. */
  const P: int := 0x7fff_ffff_ffff_ffff_ffff_ffff_ffff_ffff_ffff_ffff_ffff_ffff_ffff_ffff_ffff_ffed
  /** 2^256, the weight just past the sixteenth limb. */
  const R: int := 0x1_0000_0000_0000_0000_0000_0000_0000_0000_0000_0000_0000_0000_0000_0000_0000_0000

  /** 65536^k, the weight of limb k. */
  function Weight(k: nat): (w: int)
    ensures w > 0
  {
    if k == 0 then 1 else 65536 * Weight(k - 1)
  }

  /** The integer denoted by the first n limbs. */
  function Sum(s: seq<int64>, n: nat): int
    requires n <= |s|
  {
    if n == 0 then 0 else Sum(s, n - 1) + s[n - 1] as int * Weight(n - 1)
  }

  function Val(s: seq<int64>): int {
    Sum(s, |s|)
  }

  predicate Within(s: seq<int64>, lo: int, hi: int) {
    forall k :: 0 <= k < |s| ==> lo <= s[k] as int <= hi
  }

  lemma WeightSplit(i: nat, j: nat)
    ensures Weight(i + j) == Weight(i) * Weight(j)
  {
    if i > 0 {
      WeightSplit(i - 1, j);
    }
  }

  lemma WeightSixteen()
    ensures Weight(16) == R
  {
    assert Weight(4) == 0x1_0000_0000_0000_0000;
    WeightSplit(4, 4);
    WeightSplit(8, 8);
  }

  /** Sums depend only on the limbs they mention. */
  lemma {:induction false} SumCongruence(s: seq<int64>, t: seq<int64>, n: nat)
    requires n <= |s| && n <= |t|
    requires forall k :: 0 <= k < n ==> s[k] == t[k]
    ensures Sum(s, n) == Sum(t, n)
  {
    if n > 0 {
      SumCongruence(s, t, n - 1);
    }
  }

  /** Overwriting one limb moves the value by the difference times its weight. */
  lemma {:induction false} SumUpdate(s: seq<int64>, t: seq<int64>, k: nat, n: nat)
    requires k < n <= |s| == |t|
    requires forall j :: 0 <= j < |s| && j != k ==> s[j] == t[j]
    ensures Sum(t, n) == Sum(s, n) + (t[k] as int - s[k] as int) * Weight(k)
  {
    if k == n - 1 {
      SumCongruence(s, t, n - 1);
    } else {
      SumUpdate(s, t, k, n - 1);
    }
  }

  lemma MulBound(a: int, m: int, w: int)
    requires -m <= a <= m && w > 0
    ensures -(m * w) <= a * w <= m * w
  {
  }

  lemma {:induction false} SumBound(s: seq<int64>, n: nat, m: int)
    requires n <= |s| && m >= 0
    requires forall k :: 0 <= k < n ==> -m <= s[k] as int <= m
    ensures -m * (Weight(n) - 1) <= 65535 * Sum(s, n) <= m * (Weight(n) - 1)
  {
    if n > 0 {
      SumBound(s, n - 1, m);
      MulBound(s[n - 1] as int, m, Weight(n - 1));
      assert m * (Weight(n) - 1) == m * (Weight(n - 1) - 1) + 65535 * (m * Weight(n - 1));
    }
  }

  lemma DigitTimes(d: int, w: int)
    requires 0 <= d < 65536 && w > 0
    ensures 0 <= d * w <= 65535 * w
  {
  }

  /** Limbs that are all base-65536 digits denote a number below the next weight. */
  lemma {:induction false} DigitsBound(s: seq<int64>, n: nat)
    requires n <= |s|
    requires forall k :: 0 <= k < n ==> 0 <= s[k] as int < 65536
    ensures 0 <= Sum(s, n) < Weight(n)
  {
    if n > 0 {
      DigitsBound(s, n - 1);
      DigitTimes(s[n - 1] as int, Weight(n - 1));
    }
  }

  // ------------------------------------------------------------------
  // Residues
  // ------------------------------------------------------------------

  lemma ModAddMultiple(x: int, k: int, m: int)
    requires m > 0
    ensures (x + k * m) % m == x % m
  {
    var q := x / m;
    var r := x % m;
    assert x + k * m == (q + k) * m + r;
    DivModUnique(x + k * m, q + k, r, m);
  }

  lemma DivModUnique(x: int, q: int, r: int, m: int)
    requires m > 0 && 0 <= r < m && x == q * m + r
    ensures x / m == q && x % m == r
  {
    var q', r' := x / m, x % m;
    assert x == q' * m + r';
    var d := q - q';
    assert d * m == r' - r;
    if d > 0 {
      AtLeast(d, m);
    } else if d < 0 {
      AtLeast(-d, m);
    }
  }

  lemma ModAdd(x: int, y: int, m: int)
    requires m > 0
    ensures (x + y) % m == (x % m + y % m) % m
  {
    ModAddMultiple(x % m + y % m, x / m + y / m, m);
    assert x + y == x % m + y % m + (x / m + y / m) * m;
  }

  lemma ModSub(x: int, y: int, m: int)
    requires m > 0
    ensures (x - y) % m == (x % m - y % m) % m
  {
    ModAddMultiple(x % m - y % m, x / m - y / m, m);
    assert x - y == x % m - y % m + (x / m - y / m) * m;
  }

  lemma ModMul(x: int, y: int, m: int)
    requires m > 0
    ensures (x * y) % m == ((x % m) * (y % m)) % m
  {
    var q, r, q', r' := x / m, x % m, y / m, y % m;
    var k := q * q' * m + q * r' + r * q';
    calc {
      x * y;
      (q * m + r) * (q' * m + r');
      q * q' * m * m + q * m * r' + r * q' * m + r * r';
      r * r' + k * m;
    }
    ModAddMultiple(r * r', k, m);
  }

  lemma ModTwice(x: int, m: int)
    requires m > 0
    ensures (x % m) % m == x % m
  {
    DivModUnique(x % m, 0, x % m, m);
  }

  lemma ModMulRight(x: int, y: int, m: int)
    requires m > 0
    ensures (x * (y % m)) % m == (x * y) % m
  {
    ModMul(x, y, m);
    ModMul(x, y % m, m);
    ModTwice(y, m);
  }

  lemma ModSquareOfNegation(u: int, v: int, m: int)
    requires m > 0 && u == -v
    ensures ((u % m) * (u % m)) % m == ((v % m) * (v % m)) % m
  {
    SameSquare(u, v);
    ModMul(u, u, m);
    ModMul(v, v, m);
  }

  lemma SameSquare(u: int, v: int)
    requires u == -v
    ensures u * u == v * v
  {
  }

  // ------------------------------------------------------------------
  // The wrap-around of a carry pass
  // ------------------------------------------------------------------

  /** What one carry pass does to the value: everything past 2^256 comes back times 38. */
  function Wrap(v: int): int {
    v % R + 38 * (v / R)
  }

  /** Wrapping keeps the residue, since 2^256 - 38 is twice the prime. */
  lemma WrapKeepsResidue(v: int)
    ensures Wrap(v) % P == v % P
  {
    var q := v / R;
    assert v == Wrap(v) + (2 * q) * P;
    ModAddMultiple(Wrap(v), 2 * q, P);
  }

  /** After one pass the excess is at most one multiple of 2^256 either way;
      after two there is none. */
  lemma WrapSettles(v: int)
    requires -0x1_0000_0000_0000 * R <= v <= 0x1_0000_0000_0000 * R
    ensures -1 <= Wrap(v) / R <= 1
    ensures 0 <= Wrap(Wrap(v)) < R
  {
    var q, r := v / R, v % R;
    assert v == q * R + r;
    assert -0x1_0000_0000_0000 <= q <= 0x1_0000_0000_0000;
    var u := Wrap(v);
    if u < 0 {
      DivModUnique(u, -1, u + R, R);
    } else if u < R {
      DivModUnique(u, 0, u, R);
    } else {
      DivModUnique(u, 1, u - R, R);
    }
  }
}
