// Allocation bitmaps: bit b is bit b mod 8 of byte b div 8.
module Bitmaps {

  /** 1 << k */
  function Mask(k: nat): bv8
    requires k < 8
  {
    if k == 0 then 1 else if k == 1 then 2 else if k == 2 then 4 else if k == 3 then 8
    else if k == 4 then 16 else if k == 5 then 32 else if k == 6 then 64 else 128
  }

  predicate IsSet(s: seq<bv8>, b: nat)
    requires b < 8 * |s|
  {
    s[b / 8] & Mask(b % 8) != 0
  }

  predicate OneBitMask(m: bv8) {
    m == 1 || m == 2 || m == 4 || m == 8 || m == 16 || m == 32 || m == 64 || m == 128
  }

  lemma OrSetsOne(v: bv8, m: bv8, n: bv8)
    requires OneBitMask(m) && OneBitMask(n)
    ensures (v | m) & n != 0 <==> m == n || v & n != 0
  {
  }

  lemma MasksDiffer(j: nat, k: nat)
    requires j < 8 && k < 8
    ensures OneBitMask(Mask(j)) && OneBitMask(Mask(k)) && (Mask(j) == Mask(k) <==> j == k)
  {
  }

  /** buf[bit / 8] |= 1 << (bit % 8): sets that bit and leaves every other alone. */
  method SetBit(buf: array<bv8>, bit: nat)
    requires bit < 8 * buf.Length
    modifies buf
    ensures forall b: nat :: b < 8 * buf.Length ==> (IsSet(buf[..], b) <==> b == bit || old(IsSet(buf[..], b)))
  {
    ghost var before := buf[..];
    buf[bit / 8] := buf[bit / 8] | Mask(bit % 8);
    forall b: nat | b < 8 * buf.Length
      ensures IsSet(buf[..], b) <==> b == bit || IsSet(before, b)
    {
      MasksDiffer(bit % 8, b % 8);
      if b / 8 == bit / 8 {
        OrSetsOne(before[b / 8], Mask(bit % 8), Mask(b % 8));
      }
    }
  }

  // Sets every bit of a range.
  method SetRange(buf: array<bv8>, from: nat, to: nat)
    requires from <= to <= 8 * buf.Length
    modifies buf
    ensures forall b: nat :: b < 8 * buf.Length ==> (IsSet(buf[..], b) <==> from <= b < to || old(IsSet(buf[..], b)))
  {
    ghost var before := buf[..];
    for bit := from to to
      invariant forall b: nat :: b < 8 * buf.Length ==> (IsSet(buf[..], b) <==> from <= b < bit || IsSet(before, b))
    {
      SetBit(buf, bit);
    }
  }

  lemma ZeroClear(m: bv8)
    ensures 0 & m == 0
  {
  }

  method NewBlock(n: nat) returns (buf: array<bv8>)
    ensures fresh(buf) && buf.Length == n && forall b: nat :: b < 8 * n ==> !IsSet(buf[..], b)
  {
    buf := new bv8[n](_ => 0);
    forall b: nat | b < 8 * n
      ensures !IsSet(buf[..], b)
    {
      MasksDiffer(b % 8, 0);
      ZeroClear(Mask(b % 8));
    }
  }

  /** The clear bits among the first n. */
  function ClearBits(s: seq<bv8>, n: nat): nat
    requires n <= 8 * |s|
  {
    if n == 0 then 0 else ClearBits(s, n - 1) + (if IsSet(s, n - 1) then 0 else 1)
  }

  /** When exactly the bits lo..hi are clear, there are hi - lo of them. */
  lemma {:induction false} ClearRange(s: seq<bv8>, n: nat, lo: nat, hi: nat)
    requires n <= 8 * |s| && lo <= hi
    requires forall b: nat :: b < n ==> (IsSet(s, b) <==> !(lo <= b < hi))
    ensures ClearBits(s, n) == (if n < lo then 0 else if n < hi then n - lo else hi - lo)
  {
    if n > 0 {
      ClearRange(s, n - 1, lo, hi);
    }
  }
}
