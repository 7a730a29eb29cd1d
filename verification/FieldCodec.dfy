// Between 32 little-endian bytes and sixteen limbs.
module FieldCodec {
  import opened Limbs
  import opened FieldOps
  import opened Bytes

  /** Unpacking keeps the low 255 bits of the string. */
  method Unpack(o: array<int64>, n: array<byte>)
    requires o.Length == 16 && n.Length == 32
    modifies o
    ensures Val(o[..]) == LittleEndian(n[..], 32) % (P + 19)
    ensures Within(o[..], 0, 65535)
  {
    for i := 0 to 16
      invariant forall k :: 0 <= k < i ==> o[k] as int == n[2 * k] as int + 256 * n[2 * k + 1] as int
    {
      o[i] := n[2 * i] as int64 + (n[2 * i + 1] as int64) * 256;
    }
    ghost var full := o[..];
    BytesAsLimbs(n[..], full, 16);
    o[15] := o[15] % 32768;
    DropTopBit(full, o[..]);
  }

  lemma DropTopBit(s: seq<int64>, t: seq<int64>)
    requires |s| == |t| == 16 && Within(s, 0, 65535)
    requires forall k :: 0 <= k < 15 ==> t[k] == s[k]
    requires t[15] == s[15] % 32768
    ensures Val(t) == Val(s) % (P + 19)
  {
    SumUpdate(s, t, 15, 16);
    WeightSixteen();
    DigitsBound(t, 15);
    var w, q := Weight(15), s[15] as int / 32768;
    assert 32768 * w == P + 19;
    DigitTimes(t[15] as int, w);
    assert 0 <= t[15] as int * w <= 32767 * w by {
      DigitTimes(32767 - t[15] as int, w);
    }
    assert Val(s) == q * (P + 19) + Val(t);
    DivModUnique(Val(s), q, Val(t), P + 19);
  }

  predicate Canonical(s: seq<int64>) {
    |s| == 16 && Within(s, 0, 65535)
  }

  /** Limb i of the prime. */
  function PrimeLimb(i: nat): int64 {
    if i == 0 then 0xffed else if i == 15 then 0x7fff else 0xffff
  }

  function PrimeLimbs(): (p: seq<int64>) {
    seq(16, i requires 0 <= i < 16 => PrimeLimb(i))
  }

  lemma PrimeValue()
    ensures Sum(PrimeLimbs(), 16) == P
  {
    WeightSixteen();
    AllOnes(15);
    var w := Weight(15);
    assert 65536 * w == R;
    assert Sum(PrimeLimbs(), 16) == Sum(PrimeLimbs(), 15) + 0x7fff * w;
  }

  lemma {:induction false} AllOnes(n: nat)
    requires 1 <= n <= 15
    ensures Sum(PrimeLimbs(), n) == Weight(n) - 19
  {
    if n == 1 {
      assert Sum(PrimeLimbs(), 1) == 0xffed * Weight(0);
    } else {
      AllOnes(n - 1);
    }
  }

  // One trial subtraction of the prime, with the borrow kept in bit 16 of the
  // previous limb until that limb is masked.
  method TrialSubtract(t: array<int64>, m: array<int64>) returns (borrow: int)
    requires t.Length == m.Length == 16 && t != m && Canonical(t[..])
    modifies m
    ensures borrow == if Val(t[..]) < P then 1 else 0
    ensures borrow == 0 ==> Canonical(m[..]) && Val(m[..]) == Val(t[..]) - P
  {
    SubtractLow(t, m);
    borrow := SubtractTop(t, m);
    SignOfTop(m[..], Val(t[..]));
  }

  method SubtractTop(t: array<int64>, m: array<int64>) returns (borrow: int)
    requires t.Length == m.Length == 16 && t != m && Canonical(t[..])
    requires forall k :: 0 <= k < 14 ==> 0 <= m[k] < 65536
    requires -65536 <= m[14] < 65536
    requires Sum(m[..], 15) == Sum(t[..], 15) - Sum(PrimeLimbs(), 15)
    modifies m
    ensures forall k :: 0 <= k < 15 ==> 0 <= m[k] < 65536
    ensures -32768 <= m[15] <= 32768 && borrow == if m[15] < 0 then 1 else 0
    ensures Sum(m[..], 16) == Sum(t[..], 16) - Sum(PrimeLimbs(), 16)
  {
    ghost var m0 := m[..];
    var bit, low := SplitBorrow(m[14]);
    m[15] := t[15] - 0x7fff - bit;
    var sign, _ := SplitBorrow(m[15]);
    borrow := sign as int;
    m[14] := low;
    BorrowKeepsSum(m0, m[..], t[..], 15);
  }

  // Bit 16 of a limb, and the limb without it.
  method SplitBorrow(x: int64) returns (bit: int64, low: int64)
    requires -65536 <= x < 65536
    ensures bit == (if x < 0 then 1 else 0) && low == (if x < 0 then x + 65536 else x)
  {
    BorrowBit(x);
    bit, low := (x / 65536) % 2, x % 65536;
  }

  /** With sixteen limbs below 2^16 but the top one, the top limb carries the sign. */
  lemma SignOfTop(m: seq<int64>, v: int)
    requires |m| == 16 && forall k :: 0 <= k < 15 ==> 0 <= m[k] < 65536
    requires Sum(m, 16) == v - Sum(PrimeLimbs(), 16)
    ensures v < P <==> m[15] < 0
    ensures Val(m) == v - P
  {
    PrimeValue();
    DigitsBound(m, 15);
    TopDecides(m[15] as int, Sum(m, 15), Weight(15));
  }

  method SubtractLow(t: array<int64>, m: array<int64>)
    requires t.Length == m.Length == 16 && t != m && Canonical(t[..])
    modifies m
    ensures forall k :: 0 <= k < 14 ==> 0 <= m[k] < 65536
    ensures -65536 <= m[14] < 65536
    ensures Sum(m[..], 15) == Sum(t[..], 15) - Sum(PrimeLimbs(), 15)
  {
    m[0] := t[0] - 0xffed;
    FirstLimb(t[..], m[..]);
    for i := 1 to 15
      invariant Subtracted(t[..], m[..], i)
    {
      SubtractLimb(t, m, i);
    }
  }

  // i limbs of the prime are subtracted, the last of them not yet rid of its borrow.
  ghost predicate Subtracted(t: seq<int64>, m: seq<int64>, i: nat)
    requires |t| == |m| == 16 && 1 <= i <= 15
  {
    var limbs := (forall k :: 0 <= k < i - 1 ==> 0 <= m[k] < 65536) && -65536 <= m[i - 1] < 65536;
    limbs && Sum(m, i) == Sum(t, i) - Sum(PrimeLimbs(), i)
  }

  lemma FirstLimb(t: seq<int64>, m: seq<int64>)
    requires |t| == |m| == 16 && Canonical(t) && m[0] as int == t[0] as int - 0xffed
    ensures Subtracted(t, m, 1)
  {
    assert Sum(m, 0) == Sum(t, 0) == Sum(PrimeLimbs(), 0) == 0;
  }

  // One limb of the prime, and the borrow of the limb before it.
  method SubtractLimb(t: array<int64>, m: array<int64>, i: nat)
    requires t.Length == m.Length == 16 && t != m && Canonical(t[..]) && 1 <= i < 15
    requires Subtracted(t[..], m[..], i)
    modifies m
    ensures Subtracted(t[..], m[..], i + 1)
  {
    ghost var m0 := m[..];
    var bit, low := SplitBorrow(m[i - 1]);
    m[i] := t[i] - 0xffff - bit;
    m[i - 1] := low;
    BorrowKeepsSum(m0, m[..], t[..], i);
  }

  /** Bit 16 of a limb in [-2^16, 2^16) is its sign, and the mask adds 2^16 back. */
  lemma BorrowBit(x: int64)
    requires -65536 <= x < 65536
    ensures (x / 65536) % 2 == if x < 0 then 1 else 0
    ensures x % 65536 == if x < 0 then x + 65536 else x
  {
  }

  lemma BorrowKeepsSum(m0: seq<int64>, m: seq<int64>, t: seq<int64>, i: nat)
    requires 1 <= i <= 15 && |m0| == |m| == |t| == 16
    requires forall k :: 0 <= k < i - 1 ==> m[k] == m0[k]
    requires var b := if m0[i - 1] < 0 then 1 else 0;
             && m[i - 1] as int == m0[i - 1] as int + 65536 * b
             && m[i] as int == t[i] as int - PrimeLimb(i) as int - b
    requires Sum(m0, i) == Sum(t, i) - Sum(PrimeLimbs(), i)
    ensures Sum(m, i + 1) == Sum(t, i + 1) - Sum(PrimeLimbs(), i + 1)
  {
    var b := if m0[i - 1] < 0 then 1 else 0;
    SumCongruence(m0, m, i - 1);
    BorrowTerms(m0[i - 1] as int, t[i] as int, PrimeLimb(i) as int, b, Weight(i - 1));
  }

  lemma BorrowTerms(x: int, y: int, z: int, b: int, v: int)
    ensures (x + 65536 * b) * v + (y - z - b) * (65536 * v) == x * v + y * (65536 * v) - z * (65536 * v)
  {
  }

  lemma TopDecides(top: int, low: int, w: int)
    requires 0 <= low < w
    ensures low + top * w < 0 <==> top < 0
  {
    if top < 0 {
      assert top * w <= -w;
    } else {
      assert top * w >= 0;
    }
  }

  /** Two trial subtractions reach the least residue. */
  method SubtractTwice(t: array<int64>, m: array<int64>)
    requires t.Length == m.Length == 16 && t != m && Canonical(t[..])
    modifies t, m
    ensures Canonical(t[..]) && Val(t[..]) == old(Val(t[..])) % P
  {
    ghost var v := Val(t[..]);
    DigitsBound(t[..], 16);
    WeightSixteen();
    for j := 0 to 2
      invariant Canonical(t[..])
      invariant Val(t[..]) == if j == 0 || v < P then v else if j == 1 || v < 2 * P then v - P else v - 2 * P
    {
      var b := TrialSubtract(t, m);
      Select(t, m, 1 - b);
    }
    DivModUnique(v, if v < P then 0 else if v < 2 * P then 1 else 2, Val(t[..]), P);
  }

  method PutBytes(o: array<byte>, t: array<int64>)
    requires o.Length == 32 && Canonical(t[..])
    modifies o
    ensures LittleEndian(o[..], 32) == Val(t[..])
  {
    for i := 0 to 16
      invariant forall k :: 0 <= k < i ==>
                  o[2 * k] as int == t[k] as int % 256 && o[2 * k + 1] as int == t[k] as int / 256
    {
      o[2 * i] := (t[i] % 256) as byte;
      o[2 * i + 1] := ((t[i] / 256) % 256) as byte;
    }
    BytesAsLimbs(o[..], t[..], 16);
  }

  /** Packing writes the least residue of the value. */
  method Pack(o: array<byte>, n: array<int64>)
    requires o.Length == 32 && n.Length == 16
    requires Within(n[..], -0x2700_0000_0000_0000, 0x2700_0000_0000_0000)
    modifies o
    ensures LittleEndian(o[..], 32) == Fe(n[..])
  {
    var t, m := new int64[16](_ => 0), new int64[16](_ => 0);
    CopyLow(t, n);
    assert Within(t[..], -0x2700_0000_0000_0000, 0x2700_0000_0000_0000);
    CarryTwice(t);
    ghost var v := Val(t[..]);
    DivModUnique(v, 0, v, R);
    Carry(t);
    SubtractTwice(t, m);
    PutBytes(o, t);
  }
}
