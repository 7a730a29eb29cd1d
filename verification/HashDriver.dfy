// The two hash drivers: whole blocks first, then one or two padded ones.  What a
// block does to the state is a parameter, so the result holds for any of them.
module HashDriver {
  import opened Arithmetic
  import opened Limbs
  import opened Bytes

  // ------------------------------------------------------------------
  // The standard's padding and iteration
  // ------------------------------------------------------------------

  /** Byte i from the most significant end of an n-byte big-endian integer. */
  function BigEndianByte(v: nat, n: nat, i: nat): byte
    requires i < n
  {
    ((v / Pow2(8 * (n - 1 - i))) % 256) as byte
  }

  function BigEndian(v: nat, n: nat): (s: seq<byte>)
    ensures |s| == n
  {
    seq(n, i requires 0 <= i < n => BigEndianByte(v, n, i))
  }

  /** The message, a one bit, the least number of zeros, and the bit length as an
      n-byte integer, filling whole blocks (sections 5.1.1 and 5.1.2 of FIPS 180-4). */
  function Padded(m: seq<byte>, block: nat, n: nat): seq<byte>
    requires block > 0
  {
    PaddedBy(m, (-(|m| + 1 + n)) % block, n)
  }

  function PaddedBy(m: seq<byte>, zeros: nat, n: nat): seq<byte> {
    m + [0x80] + Zeros(zeros) + BigEndian(8 * |m|, n)
  }

  lemma PaddedLength(m: seq<byte>, block: nat, n: nat)
    requires block > 0
    ensures |Padded(m, block, n)| % block == 0
  {
    var x := |m| + 1 + n;
    var q := (-x) / block;
    assert -x == q * block + (-x) % block;
    assert x + (-x) % block == (-q) * block + 0;
    DivModUnique(x + (-x) % block, -q, 0, block);
  }

  /** The message, then a byte 128, zeros and the length, the least that fill whole blocks. */
  predicate IsPadding(m: seq<byte>, p: seq<byte>, block: nat, n: nat) {
    && block > 0 && |p| % block == 0 && |m| + 1 + n <= |p| < |m| + 1 + n + block
    && p[..|m|] == m && p[|m|] == 128 && (forall i :: |m| < i < |p| - n ==> p[i] == 0)
    && forall i :: |p| - n <= i < |p| ==> p[i] as int == 8 * |m| / Pow2(8 * (|p| - 1 - i)) % 256
  }

  /** There is one such padding. */
  lemma PaddedExactly(m: seq<byte>, p: seq<byte>, block: nat, n: nat)
    requires block > 0
    ensures p == Padded(m, block, n) <==> IsPadding(m, p, block, n)
  {
    var q := Padded(m, block, n);
    PaddedLength(m, block, n);
    var zeros := (-(|m| + 1 + n)) % block;
    assert |q| == |m| + 1 + zeros + n;
    forall i | |q| - n <= i < |q|
      ensures q[i] as int == 8 * |m| / Pow2(8 * (|q| - 1 - i)) % 256
    {
      assert q[i] == BigEndian(8 * |m|, n)[i - (|q| - n)];
    }
    assert forall i :: |m| < i < |q| - n ==> q[i] == Zeros(zeros)[i - |m| - 1];
    assert q[..|m|] == m;
    if IsPadding(m, p, block, n) {
      OneMultiple(|p|, |q|, |m| + 1 + n, block);
      assert p[..|m|] == q[..|m|];
      forall i | 0 <= i < |p|
        ensures p[i] == q[i]
      {
        if i < |m| {
          assert p[i] == p[..|m|][i];
        }
      }
    }
  }

  lemma OneMultiple(x: int, y: int, low: int, block: int)
    requires block > 0 && x % block == 0 && y % block == 0
    requires low <= x < low + block && low <= y < low + block
    ensures x == y
  {
    var i, j := x / block, y / block;
    assert x == i * block && y == j * block;
    if i < j {
      AtLeast(j - i, block);
    } else if j < i {
      AtLeast(i - j, block);
    }
  }

  /** The state after the whole blocks among the first `to` bytes. */
  function Iterate<S>(init: S, m: seq<byte>, to: nat, size: nat, f: (S, seq<byte>) -> S): S
    requires to <= |m| && size > 0
  {
    if to < size then init else f(Iterate(init, m, to - size, size, f), m[to - size..to])
  }

  /** The hash of a message as the standard defines it. */
  function Hash<S>(init: S, m: seq<byte>, size: nat, n: nat, f: (S, seq<byte>) -> S): S
    requires size > 0
  {
    Iterate(init, Padded(m, size, n), |Padded(m, size, n)|, size, f)
  }

  lemma {:induction false} IterateCongruence<S>(init: S, m: seq<byte>, p: seq<byte>, to: nat, size: nat,
                                                f: (S, seq<byte>) -> S)
    requires to <= |m| && to <= |p| && size > 0 && m[..to] == p[..to]
    ensures Iterate(init, m, to, size, f) == Iterate(init, p, to, size, f)
  {
    if to >= size {
      var lo := to - size;
      assert m[..lo] == m[..to][..lo] && p[..lo] == p[..to][..lo];
      assert m[lo..to] == m[..to][lo..] && p[lo..to] == p[..to][lo..];
      IterateCongruence(init, m, p, lo, size, f);
    }
  }

  /** The length field reads back as the bit length. */
  lemma {:induction false} LengthField(v: nat, n: nat)
    requires v < Pow2(8 * n)
    ensures LittleEndian(seq(n, i requires 0 <= i < n => BigEndian(v, n)[n - 1 - i]), n) == v
  {
    var s := seq(n, i requires 0 <= i < n => BigEndian(v, n)[n - 1 - i]);
    forall i | 0 <= i < n
      ensures s[i] as int == (v / Pow2(8 * i)) % 256
    {
      assert s[i] == BigEndian(v, n)[n - 1 - i] == BigEndianByte(v, n, n - 1 - i);
    }
    LowBytes(s, v, n);
    DivModUnique(v, 0, v, Pow2(8 * n));
  }

  lemma {:induction false} LowBytes(s: seq<byte>, v: nat, n: nat)
    requires n <= |s| && forall i :: 0 <= i < n ==> s[i] as int == (v / Pow2(8 * i)) % 256
    ensures LittleEndian(s, n) == v % Pow2(8 * n)
  {
    if n > 0 {
      LowBytes(s, v, n - 1);
      var w := Pow2(8 * (n - 1));
      Pow2Split(8, 8 * (n - 1));
      Pow2Values();
      NextByte(v, w);
    }
  }

  lemma NextByte(v: nat, w: nat)
    requires w > 0
    ensures v % w + (v / w) % 256 * w == v % (256 * w)
  {
    var q, r := v / w, v % w;
    var q', r' := q / 256, q % 256;
    assert v == (256 * q' + r') * w + r;
    assert (256 * q' + r') * w == q' * (256 * w) + r' * w;
    ByteTimes(r', w);
    DivModUnique(v, q', r' * w + r, 256 * w);
  }

  // ------------------------------------------------------------------
  // The 64-byte driver
  // ------------------------------------------------------------------

  method Clear(block: array<byte>, from: nat, to: nat)
    requires from <= to <= block.Length
    modifies block
    ensures forall k :: 0 <= k < block.Length ==> block[k] == if from <= k < to then 0 else old(block[k])
  {
    for i := from to to
      invariant forall k :: 0 <= k < block.Length ==> block[k] == if from <= k < i then 0 else old(block[k])
    {
      block[i] := 0;
    }
  }

  method CopyTail(block: array<byte>, data: array<byte>, at: nat)
    requires at <= data.Length <= at + block.Length && block != data
    modifies block
    ensures forall k :: 0 <= k < block.Length ==>
            block[k] == if k < data.Length - at then data[at + k] else old(block[k])
  {
    for i := 0 to data.Length - at
      invariant forall k :: 0 <= k < block.Length ==> block[k] == if k < i then data[at + k] else old(block[k])
    {
      block[i] := data[at + i];
    }
  }

  // The 8-byte length, most significant byte first, at the end of the block.
  method PutLength(block: array<byte>, bits: nat)
    requires block.Length >= 8
    modifies block
    ensures forall k :: 0 <= k < block.Length ==>
      block[k] == if k < block.Length - 8 then old(block[k]) else BigEndianByte(bits, 8, k - (block.Length - 8))
  {
    var n := block.Length;
    for i := 0 to 8
      invariant forall k :: 0 <= k < n - i ==> block[k] == old(block[k])
      invariant forall k :: n - i <= k < n ==> block[k] == BigEndianByte(bits, 8, k - (n - 8))
    {
      block[n - 1 - i] := ((bits / Pow2(8 * i)) % 256) as byte;
    }
  }

  /** One more whole block of the message. */
  lemma NextBlock<S>(m: seq<byte>, init: S, from: nat, size: nat, f: (S, seq<byte>) -> S)
    requires size > 0 && from + size <= |m|
    ensures Iterate(init, m, from + size, size, f) == f(Iterate(init, m, from, size, f), m[from..from + size])
  {
  }

  /** Bytes after the whole blocks: one block, or two when the length does not fit. */
  function TailSize(tail: nat, size: nat, n: nat): nat {
    if tail + 1 + n <= size then size else 2 * size
  }

  /** Byte j after the whole blocks, when the last `tail` bytes of m follow those. */
  function TailByte(m: seq<byte>, tail: nat, size: nat, n: nat, j: nat): byte
    requires tail <= |m| && tail < size && n < size && j < TailSize(tail, size, n)
  {
    if j < tail then m[|m| - tail + j]
    else if j == tail then 0x80
    else if j < TailSize(tail, size, n) - n then 0
    else BigEndianByte(8 * |m|, n, j - (TailSize(tail, size, n) - n))
  }

  lemma TailIsPadding<S>(init: S, m: seq<byte>, tail: nat, size: nat, n: nat, f: (S, seq<byte>) -> S)
      returns (p: seq<byte>)
    requires 0 < size && n < size && tail <= |m| && tail == |m| % size
    ensures Hash(init, m, size, n, f) == Iterate(init, p, |p|, size, f)
    ensures var from := |m| - tail;
            && |p| == from + TailSize(tail, size, n) && p[..from] == m[..from]
            && forall i :: from <= i < |p| ==> p[i] == TailByte(m, tail, size, n, i - from)
  {
    ZeroCount(|m|, size, n);
    p := Padded(m, size, n);
    PaddedBytes(m, tail, size, n, p);
  }

  lemma PaddedBytes(m: seq<byte>, tail: nat, size: nat, n: nat, p: seq<byte>)
    requires n < size && tail <= |m| && tail < size
    requires p == PaddedBy(m, TailSize(tail, size, n) - tail - 1 - n, n)
    ensures var from := |m| - tail;
            && |p| == from + TailSize(tail, size, n) && p[..from] == m[..from]
            && forall i :: from <= i < |p| ==> p[i] == TailByte(m, tail, size, n, i - from)
  {
  }

  lemma ZeroCount(len: nat, size: nat, n: nat)
    requires 0 < size && n < size
    ensures var tail := len % size;
            (-(len + 1 + n)) % size == (if tail + 1 + n <= size then size else 2 * size) - tail - 1 - n
  {
    var tail, q := len % size, len / size;
    var k := if tail + 1 + n <= size then 1 else 2;
    var r := k * size - tail - 1 - n;
    SumMultiples(q, k, size);
    assert -(len + 1 + n) == (-(q + k)) * size + r;
    DivModUnique(-(len + 1 + n), -(q + k), r, size);
  }

  lemma SumMultiples(q: int, k: int, size: int)
    ensures (-(q + k)) * size == -(q * size) - k * size
  {
  }

  /** The high half of a 128-bit length below 2^64 is zero. */
  lemma HighLengthBytes(v: nat, i: nat)
    requires v < 0x1_0000_0000_0000_0000 && i < 16
    ensures BigEndianByte(v, 16, i) == if i < 8 then 0 else BigEndianByte(v, 8, i - 8)
  {
    if i < 8 {
      var w := Pow2(8 * (15 - i));
      Pow2Split(64, 8 * (7 - i));
      Pow2Of64();
      assert 8 * (15 - i) == 64 + 8 * (7 - i);
      assert w >= 0x1_0000_0000_0000_0000 by {
        AtLeast(Pow2(8 * (7 - i)), 0x1_0000_0000_0000_0000);
      }
      DivModUnique(v, 0, v, w);
    }
  }

  lemma Pow2Of64()
    ensures Pow2(64) == 0x1_0000_0000_0000_0000
  {
    Pow2Split(16, 16);
    Pow2Split(32, 32);
    Pow2Values();
  }

  lemma OneTailBlock<S>(init: S, m: seq<byte>, tail: nat, size: nat, n: nat, b: seq<byte>, f: (S, seq<byte>) -> S)
    requires 0 < size && n < size && tail == |m| % size && tail <= |m| && TailSize(tail, size, n) == size == |b|
    requires forall j :: 0 <= j < size ==> b[j] == TailByte(m, tail, size, n, j)
    ensures Hash(init, m, size, n, f) == f(Iterate(init, m, |m| - tail, size, f), b)
  {
    var p := TailIsPadding(init, m, tail, size, n, f);
    var whole := m[..|m| - tail];
    assert p == whole + b;
    IterateCongruence(init, m, whole, |whole|, size, f);
    OneMore(init, whole, b, size, f);
  }

  lemma OneMore<S>(init: S, m: seq<byte>, b: seq<byte>, size: nat, f: (S, seq<byte>) -> S)
    requires size > 0 && |b| == size
    ensures Iterate(init, m + b, |m + b|, size, f) == f(Iterate(init, m, |m|, size, f), b)
  {
    var p, from := m + b, |m|;
    assert |p| - size == from && p[from..|p|] == b && p[..from] == m == m[..from];
    IterateCongruence(init, m, p, from, size, f);
    assert Iterate(init, p, |p|, size, f) == f(Iterate(init, p, from, size, f), p[from..|p|]);
  }

  lemma TwoTailBlocks<S>(init: S, m: seq<byte>, tail: nat, size: nat, n: nat, b: seq<byte>, c: seq<byte>,
                         f: (S, seq<byte>) -> S)
    requires 0 < size && n < size && tail == |m| % size && tail <= |m|
    requires TailSize(tail, size, n) == 2 * size && |b| == |c| == size
    requires forall j :: 0 <= j < size ==> b[j] == TailByte(m, tail, size, n, j)
    requires forall j :: size <= j < 2 * size ==> c[j - size] == TailByte(m, tail, size, n, j)
    ensures Hash(init, m, size, n, f) == f(f(Iterate(init, m, |m| - tail, size, f), b), c)
  {
    var p := TailIsPadding(init, m, tail, size, n, f);
    TailSplit(m, p, tail, size, n, b, c);
    IterateCongruence(init, m, m[..|m| - tail], |m| - tail, size, f);
    TwoMore(init, m[..|m| - tail], size, b, c, f);
  }

  lemma TailSplit(m: seq<byte>, p: seq<byte>, tail: nat, size: nat, n: nat, b: seq<byte>, c: seq<byte>)
    requires n < size && tail < size && tail <= |m| && |b| == |c| == size && TailSize(tail, size, n) == 2 * size
    requires |p| == |m| - tail + 2 * size && p[..|m| - tail] == m[..|m| - tail]
    requires forall i :: |m| - tail <= i < |p| ==> p[i] == TailByte(m, tail, size, n, i - (|m| - tail))
    requires forall j :: 0 <= j < size ==> b[j] == TailByte(m, tail, size, n, j)
    requires forall j :: size <= j < 2 * size ==> c[j - size] == TailByte(m, tail, size, n, j)
    ensures p == m[..|m| - tail] + b + c
  {
    var from, bc := |m| - tail, b + c;
    forall j | 0 <= j < 2 * size
      ensures p[from..][j] == bc[j]
    {
      assert p[from + j] == TailByte(m, tail, size, n, j);
      if j >= size {
        assert bc[j] == c[j - size];
      }
    }
    assert p == p[..from] + p[from..];
    assert m[..from] + bc == m[..from] + b + c;
  }

  lemma TwoMore<S>(init: S, m: seq<byte>, size: nat, b: seq<byte>, c: seq<byte>, f: (S, seq<byte>) -> S)
    requires size > 0 && |b| == |c| == size
    ensures Iterate(init, m + b + c, |m + b + c|, size, f) == f(f(Iterate(init, m, |m|, size, f), b), c)
  {
    OneMore(init, m, b, size, f);
    OneMore(init, m + b, c, size, f);
  }

  // The last bytes of the message and the one bit, in a cleared block.
  method StartTail(block: array<byte>, data: array<byte>)
    requires block.Length > 0 && block != data
    modifies block
    ensures var tail := data.Length % block.Length;
            forall k :: 0 <= k < block.Length ==>
              block[k] == if k < tail then data[data.Length - tail + k] else if k == tail then 0x80 else 0
  {
    var tail := data.Length % block.Length;
    Clear(block, 0, block.Length);
    CopyTail(block, data, data.Length - tail);
    block[tail] := 0x80;
  }

  lemma LongLength(v: nat)
    requires v < 0x1_0000_0000_0000_0000
    ensures forall i :: 0 <= i < 16 ==> BigEndianByte(v, 16, i) == if i < 8 then 0 else BigEndianByte(v, 8, i - 8)
  {
    forall i | 0 <= i < 16
      ensures BigEndianByte(v, 16, i) == if i < 8 then 0 else BigEndianByte(v, 8, i - 8)
    {
      HighLengthBytes(v, i);
    }
  }
}
