// The in-place field operations.  Destination and operands may be the same
// array: the callers rely on it.
module FieldOps {
  import opened Limbs

  /** The residue mod 2^255-19 that sixteen limbs stand for. */
  function Fe(s: seq<int64>): int {
    Val(s) % P
  }

  /** The range of every multiplication result: limb 0 carries at most one wrap. */
  predicate Tight(s: seq<int64>) {
    && |s| == 16
    && -38 <= s[0] as int <= 65573
    && forall k :: 1 <= k < 16 ==> 0 <= s[k] as int < 65536
  }

  /** Operands for which the product cannot leave 64 bits. */
  predicate Loose(s: seq<int64>) {
    |s| == 16 && Within(s, -0x400_0000, 0x400_0000)
  }

  // ------------------------------------------------------------------
  // Masked swap
  // ------------------------------------------------------------------

  // Each limb pair is exchanged as `MaskedSwap.Swaps` says of its 64-bit words.
  method Select(p: array<int64>, q: array<int64>, b: int)
    requires p.Length == q.Length == 16 && p != q
    requires b == 0 || b == 1
    modifies p, q
    ensures p[..] == old(if b == 1 then q[..] else p[..])
    ensures q[..] == old(if b == 1 then p[..] else q[..])
  {
    for i := 0 to 16
      invariant forall k :: 0 <= k < i ==> p[k] == old(if b == 1 then q[k] else p[k])
      invariant forall k :: 0 <= k < i ==> q[k] == old(if b == 1 then p[k] else q[k])
      invariant forall k :: i <= k < 16 ==> p[k] == old(p[k]) && q[k] == old(q[k])
    {
      if b == 1 {
        p[i], q[i] := q[i], p[i];
      }
    }
  }

  // ------------------------------------------------------------------
  // Carry
  // ------------------------------------------------------------------

  method Carry(o: array<int64>)
    requires o.Length == 16
    requires Within(o[..], -0x4000_0000_0000_0000, 0x4000_0000_0000_0000)
    modifies o
    ensures Val(o[..]) == Wrap(old(Val(o[..])))
    ensures forall k :: 1 <= k < 16 ==> 0 <= o[k] as int < 65536
    ensures 0 <= o[0] as int - 38 * (old(Val(o[..])) / R) < 65536
  {
    ghost var s0 := o[..];
    for i := 0 to 15
      invariant Sum(o[..], 16) == Sum(s0, 16)
      invariant forall k :: 0 <= k < i ==> 0 <= o[k] as int < 65536
      invariant forall k :: i < k < 16 ==> o[k] == s0[k]
      invariant -0x4000_8000_0000_0000 <= o[i] as int <= 0x4000_8000_0000_0000
    {
      ghost var s1 := o[..];
      o[i] := o[i] + 65536;
      var c := o[i] / 65536;
      o[i + 1] := o[i + 1] + (c - 1);
      ghost var s2 := o[..];
      o[i] := o[i] - c * 65536;
      CarryKeepsSum(s1, s2, o[..], i, c as int - 1);
    }
    ghost var s1 := o[..];
    o[15] := o[15] + 65536;
    var c := o[15] / 65536;
    o[0] := o[0] + 38 * (c - 1);
    ghost var s2 := o[..];
    o[15] := o[15] - c * 65536;
    LastCarryWraps(s1, o[..], c as int - 1);
  }

  /** Moving c units of 2^16 from limb i to limb i+1 keeps the value. */
  lemma CarryKeepsSum(s1: seq<int64>, s2: seq<int64>, s3: seq<int64>, i: nat, c: int)
    requires i < 15 && |s1| == |s2| == |s3| == 16
    requires forall k :: 0 <= k < 16 && k != i && k != i + 1 ==> s1[k] == s3[k]
    requires forall k :: 0 <= k < 16 && k != i ==> s2[k] == s3[k]
    requires s3[i] as int == s1[i] as int - 65536 * c
    requires s3[i + 1] as int == s1[i + 1] as int + c
    ensures Sum(s3, 16) == Sum(s1, 16)
  {
    var t := s1[i + 1 := s3[i + 1]];
    SumUpdate(s1, t, i + 1, 16);
    SumUpdate(t, s3, i, 16);
    assert Weight(i + 1) == 65536 * Weight(i);
    assert c * Weight(i + 1) == 65536 * c * Weight(i);
  }

  lemma LastCarryWraps(s1: seq<int64>, s3: seq<int64>, c: int)
    requires |s1| == |s3| == 16
    requires forall k :: 0 <= k < 15 ==> 0 <= s1[k] as int < 65536
    requires forall k :: 1 <= k < 15 ==> s3[k] == s1[k]
    requires s3[15] as int == s1[15] as int - 65536 * c && 0 <= s3[15] as int < 65536
    requires s3[0] as int == s1[0] as int + 38 * c
    ensures Sum(s1, 16) / R == c && Sum(s3, 16) == Wrap(Sum(s1, 16))
  {
    var d := s1[15 := s3[15]];
    SumUpdate(s1, d, 15, 16);
    WeightSixteen();
    assert 65536 * Weight(15) == R;
    DigitsBound(d, 16);
    assert Sum(s1, 16) == c * R + Sum(d, 16);
    DivModUnique(Sum(s1, 16), c, Sum(d, 16), R);
    SumUpdate(d, s3, 0, 16);
  }

  // ------------------------------------------------------------------
  // Addition and subtraction
  // ------------------------------------------------------------------

  lemma {:induction false} SumLinear(o: seq<int64>, a: seq<int64>, b: seq<int64>, sign: int, n: nat)
    requires n <= |o| == |a| == |b|
    requires sign == 1 || sign == -1
    requires forall k :: 0 <= k < n ==> o[k] as int == a[k] as int + sign * b[k] as int
    ensures Sum(o, n) == Sum(a, n) + sign * Sum(b, n)
  {
    if n > 0 {
      SumLinear(o, a, b, sign, n - 1);
      LinearTerm(a[n - 1] as int, b[n - 1] as int, sign, Weight(n - 1));
    }
  }

  lemma LinearTerm(x: int, y: int, sign: int, w: int)
    requires sign == 1 || sign == -1
    ensures (x + sign * y) * w == x * w + sign * (y * w)
  {
  }

  lemma SumIsFieldSum(o: seq<int64>, a: seq<int64>, b: seq<int64>)
    requires |o| == |a| == |b| == 16
    requires forall k :: 0 <= k < 16 ==> o[k] as int == a[k] as int + b[k] as int
    ensures Fe(o) == (Fe(a) + Fe(b)) % P
  {
    SumLinear(o, a, b, 1, 16);
    ModAdd(Val(a), Val(b), P);
  }

  lemma DifferenceIsFieldDifference(o: seq<int64>, a: seq<int64>, b: seq<int64>)
    requires |o| == |a| == |b| == 16
    requires forall k :: 0 <= k < 16 ==> o[k] as int == a[k] as int - b[k] as int
    ensures Fe(o) == (Fe(a) - Fe(b)) % P
  {
    SumLinear(o, a, b, -1, 16);
    ModSub(Val(a), Val(b), P);
  }

  method Add(o: array<int64>, a: array<int64>, b: array<int64>)
    requires o.Length == a.Length == b.Length == 16
    requires Within(a[..], -0x100_0000, 0x100_0000) && Within(b[..], -0x100_0000, 0x100_0000)
    modifies o
    ensures forall k :: 0 <= k < 16 ==> o[k] as int == old(a[k]) as int + old(b[k]) as int
    ensures Fe(o[..]) == (old(Fe(a[..])) + old(Fe(b[..]))) % P
  {
    ghost var sa, sb := a[..], b[..];
    for i := 0 to 16
      invariant forall k :: 0 <= k < i ==> o[k] as int == sa[k] as int + sb[k] as int
      invariant forall k :: i <= k < 16 ==> a[k] == sa[k] && b[k] == sb[k]
    {
      o[i] := a[i] + b[i];
    }
    SumIsFieldSum(o[..], sa, sb);
  }

  method Sub(o: array<int64>, a: array<int64>, b: array<int64>)
    requires o.Length == a.Length == b.Length == 16
    requires Within(a[..], -0x100_0000, 0x100_0000) && Within(b[..], -0x100_0000, 0x100_0000)
    modifies o
    ensures forall k :: 0 <= k < 16 ==> o[k] as int == old(a[k]) as int - old(b[k]) as int
    ensures Fe(o[..]) == (old(Fe(a[..])) - old(Fe(b[..]))) % P
  {
    ghost var sa, sb := a[..], b[..];
    for i := 0 to 16
      invariant forall k :: 0 <= k < i ==> o[k] as int == sa[k] as int - sb[k] as int
      invariant forall k :: i <= k < 16 ==> a[k] == sa[k] && b[k] == sb[k]
    {
      o[i] := a[i] - b[i];
    }
    DifferenceIsFieldDifference(o[..], sa, sb);
  }

  // ------------------------------------------------------------------
  // Multiplication
  // ------------------------------------------------------------------

  /** The limbs from 16 up, as a number of their own. */
  function High(t: seq<int64>, n: nat): int
    requires 16 + n <= |t|
  {
    if n == 0 then 0 else High(t, n - 1) + t[16 + n - 1] as int * Weight(n - 1)
  }

  lemma {:induction false} SplitAtSixteen(t: seq<int64>, n: nat)
    requires 16 + n <= |t|
    ensures Sum(t, 16 + n) == Sum(t, 16) + R * High(t, n)
  {
    if n > 0 {
      SplitAtSixteen(t, n - 1);
      WeightSplit(16, n - 1);
      WeightSixteen();
      PullOut(t[16 + n - 1] as int, R, Weight(n - 1), High(t, n - 1));
    }
  }

  lemma PullOut(x: int, r: int, w: int, h: int)
    ensures r * h + x * (r * w) == r * (h + x * w)
  {
  }

  lemma Rearrange(a: int, b: int, u: int, v: int)
    ensures (a * b) * (u * v) == (a * u) * (b * v)
  {
    calc {
      (a * b) * (u * v);
      a * (b * (u * v));
      a * (u * (b * v));
      (a * u) * (b * v);
    }
  }

  /** One product term of the schoolbook multiplication. */
  lemma TermAdded(t: seq<int64>, t': seq<int64>, a: int, b: int, i: nat, j: nat)
    requires |t| == |t'| == 31 && i < 16 && j < 16
    requires forall k :: 0 <= k < 31 && k != i + j ==> t'[k] == t[k]
    requires t'[i + j] as int == t[i + j] as int + a * b
    ensures Sum(t', 31) == Sum(t, 31) + (a * Weight(i)) * (b * Weight(j))
  {
    SumUpdate(t, t', i + j, 31);
    WeightSplit(i, j);
    var u, v := Weight(i), Weight(j);
    Rearrange(a, b, u, v);
  }

  lemma ProductBound(a: int, b: int)
    requires -0x400_0000 <= a <= 0x400_0000 && -0x400_0000 <= b <= 0x400_0000
    ensures -0x10_0000_0000_0000 <= a * b <= 0x10_0000_0000_0000
  {
    var m := 0x400_0000;
    if b > 0 {
      MulBound(a, m, b);
    } else if b < 0 {
      MulBound(a, m, -b);
      assert a * b == -(a * -b);
    }
  }

  // The inner loop: limb a[i] times the whole of b, added at offset i.
  method AddRow(t: array<int64>, a: array<int64>, b: array<int64>, i: nat)
    requires t.Length == 31 && Loose(a[..]) && Loose(b[..]) && t != a && t != b && i < 16
    requires Sum(t[..], 31) == Sum(a[..], i) * Val(b[..])
    requires Within(t[..], -(i * 0x10_0000_0000_0000), i * 0x10_0000_0000_0000)
    modifies t
    ensures Sum(t[..], 31) == Sum(a[..], i + 1) * Val(b[..])
    ensures Within(t[..], -((i + 1) * 0x10_0000_0000_0000), (i + 1) * 0x10_0000_0000_0000)
  {
    ghost var t0 := t[..];
    ghost var w := a[i] as int * Weight(i);
    for j := 0 to 16
      invariant Sum(t[..], 31) == Sum(t0, 31) + w * Sum(b[..], j)
      invariant forall k :: i + j <= k < 31 ==> t[k] == t0[k]
      invariant Within(t[..], -((i + 1) * 0x10_0000_0000_0000), (i + 1) * 0x10_0000_0000_0000)
    {
      ProductBound(a[i] as int, b[j] as int);
      ghost var before := t[..];
      t[i + j] := t[i + j] + a[i] * b[j];
      TermAdded(before, t[..], a[i] as int, b[j] as int, i, j);
      Distribute(w, Sum(b[..], j), b[j] as int * Weight(j));
    }
    DistributeRight(Sum(a[..], i), w, Val(b[..]));
  }

  lemma Distribute(w: int, x: int, y: int)
    ensures w * (x + y) == w * x + w * y
  {
  }

  lemma DistributeRight(x: int, y: int, v: int)
    ensures (x + y) * v == x * v + y * v
  {
  }

  method Convolve(a: array<int64>, b: array<int64>) returns (t: array<int64>)
    requires Loose(a[..]) && Loose(b[..])
    ensures fresh(t) && t.Length == 31
    ensures Sum(t[..], 31) == Val(a[..]) * Val(b[..])
    ensures Within(t[..], -0x100_0000_0000_0000, 0x100_0000_0000_0000)
  {
    t := new int64[31](_ => 0);
    SumBound(t[..], 31, 0);
    for i := 0 to 16
      invariant Sum(t[..], 31) == Sum(a[..], i) * Val(b[..])
      invariant Within(t[..], -(i * 0x10_0000_0000_0000), i * 0x10_0000_0000_0000)
    {
      AddRow(t, a, b, i);
    }
  }

  method Reduce(t: array<int64>)
    requires t.Length == 31
    requires Within(t[..], -0x100_0000_0000_0000, 0x100_0000_0000_0000)
    modifies t
    ensures Sum(t[..], 16) % P == old(Sum(t[..], 31)) % P
    ensures Within(t[..], -0x2700_0000_0000_0000, 0x2700_0000_0000_0000)
  {
    ghost var t0 := t[..];
    for i := 0 to 15
      invariant forall k :: i <= k < 31 ==> t[k] == t0[k]
      invariant Within(t[..], -0x2700_0000_0000_0000, 0x2700_0000_0000_0000)
      invariant Sum(t[..], 16) == Sum(t0, 16) + 38 * High(t0, i)
    {
      ghost var before := t[..];
      t[i] := t[i] + 38 * t[i + 16];
      FoldTerm(before, t[..], i);
    }
    SplitAtSixteen(t0, 15);
    FoldKeepsResidue(Sum(t[..], 16), Sum(t0, 31), High(t0, 15));
  }

  lemma FoldTerm(t: seq<int64>, t': seq<int64>, i: nat)
    requires |t| == |t'| == 31 && i < 15
    requires forall k :: 0 <= k < 31 && k != i ==> t'[k] == t[k]
    requires t'[i] as int == t[i] as int + 38 * t[i + 16] as int
    ensures Sum(t', 16) == Sum(t, 16) + 38 * (t[i + 16] as int * Weight(i))
  {
    SumUpdate(t, t', i, 16);
    var x, w := t[i + 16] as int, Weight(i);
    assert (38 * x) * w == 38 * (x * w);
  }

  lemma FoldKeepsResidue(folded: int, full: int, h: int)
    requires folded - 38 * h == full - R * h
    ensures folded % P == full % P
  {
    assert full == folded + (2 * h) * P;
    ModAddMultiple(folded, 2 * h, P);
  }

  lemma FeProduct(x: int, a: seq<int64>, b: seq<int64>)
    requires x % P == (Val(a) * Val(b)) % P
    ensures x % P == (Fe(a) * Fe(b)) % P
  {
    ModMul(Val(a), Val(b), P);
  }

  method Mul(o: array<int64>, a: array<int64>, b: array<int64>)
    requires o.Length == 16 && Loose(a[..]) && Loose(b[..])
    modifies o
    ensures Fe(o[..]) == (old(Fe(a[..])) * old(Fe(b[..]))) % P
    ensures Tight(o[..])
  {
    ghost var sa, sb := a[..], b[..];
    var t := Convolve(a, b);
    Reduce(t);
    FeProduct(Sum(t[..], 16), sa, sb);
    CopyLow(o, t);
    CarryTwice(o);
  }

  method CopyLow(o: array<int64>, t: array<int64>)
    requires o.Length == 16 <= t.Length && o != t
    modifies o
    ensures o[..] == t[..16] && Val(o[..]) == Sum(t[..], 16)
  {
    for i := 0 to 16
      invariant forall k :: 0 <= k < i ==> o[k] == t[k]
    {
      o[i] := t[i];
    }
    SumCongruence(o[..], t[..], 16);
  }

  method CarryTwice(o: array<int64>)
    requires o.Length == 16
    requires Within(o[..], -0x2700_0000_0000_0000, 0x2700_0000_0000_0000)
    modifies o
    ensures Fe(o[..]) == old(Fe(o[..])) && Tight(o[..])
    ensures 0 <= Val(o[..]) < R
  {
    ghost var v := Val(o[..]);
    WeightSixteen();
    SumBound(o[..], 16, 0x2700_0000_0000_0000);
    WrapSettles(v);
    WrapKeepsResidue(v);
    WrapKeepsResidue(Wrap(v));
    Carry(o);
    Carry(o);
  }

  method Square(o: array<int64>, a: array<int64>)
    requires o.Length == 16 && Loose(a[..])
    modifies o
    ensures Fe(o[..]) == (old(Fe(a[..])) * old(Fe(a[..]))) % P
    ensures Tight(o[..])
  {
    Mul(o, a, a);
  }
}
