// Little-endian bytes and the bits of the number they denote.
module Bytes {
  import opened Limbs

  function Pow2(n: nat): (w: int)
    ensures w > 0
  {
    if n == 0 then 1 else 2 * Pow2(n - 1)
  }

  function Zeros(n: nat): (z: seq<byte>)
    ensures |z| == n
  {
    seq(n, _ => 0)
  }

  /** The integer denoted by the first n bytes, least significant first. */
  function LittleEndian(s: seq<byte>, n: nat): int
    requires n <= |s|
  {
    if n == 0 then 0 else LittleEndian(s, n - 1) + s[n - 1] as int * Pow2(8 * (n - 1))
  }

  lemma Pow2Split(i: nat, j: nat)
    ensures Pow2(i + j) == Pow2(i) * Pow2(j)
  {
    if i > 0 {
      Pow2Split(i - 1, j);
    }
  }

  lemma Pow2Values()
    ensures Pow2(7) == 128 && Pow2(8) == 256 && Pow2(16) == 65536
  {
  }

  lemma {:induction false} Pow2Weight(k: nat)
    ensures Pow2(16 * k) == Weight(k)
  {
    if k > 0 {
      var j := k - 1;
      Pow2Weight(j);
      Pow2Split(16, 16 * j);
      Pow2Values();
      assert Pow2(16 * k) == Pow2(16 + 16 * j);
    }
  }

  lemma Pow2Of255()
    ensures Pow2(256) == R && Pow2(255) == P + 19 && Pow2(254) == R / 4
  {
    Pow2Weight(16);
    WeightSixteen();
    assert Pow2(256) == 2 * Pow2(255);
    assert Pow2(255) == 2 * Pow2(254);
  }

  lemma {:induction false} LittleEndianBound(s: seq<byte>, n: nat)
    requires n <= |s|
    ensures 0 <= LittleEndian(s, n) < Pow2(8 * n)
  {
    if n > 0 {
      LittleEndianBound(s, n - 1);
      Pow2Split(8, 8 * (n - 1));
      var w := Pow2(8 * (n - 1));
      assert Pow2(8 * n) == 256 * w;
      ByteTimes(s[n - 1] as int, w);
    }
  }

  lemma ByteTimes(d: int, w: int)
    requires 0 <= d < 256 && w > 0
    ensures 0 <= d * w <= 255 * w
  {
  }

  /** Little-endian decoding loses nothing. */
  lemma {:induction false} LittleEndianInjective(s: seq<byte>, t: seq<byte>, n: nat)
    requires n <= |s| && n <= |t|
    requires LittleEndian(s, n) == LittleEndian(t, n)
    ensures s[..n] == t[..n]
  {
    if n > 0 {
      var w := Pow2(8 * (n - 1));
      LittleEndianBound(s, n - 1);
      LittleEndianBound(t, n - 1);
      DivModUnique(LittleEndian(s, n), s[n - 1] as int, LittleEndian(s, n - 1), w);
      DivModUnique(LittleEndian(t, n), t[n - 1] as int, LittleEndian(t, n - 1), w);
      LittleEndianInjective(s, t, n - 1);
      assert s[..n] == s[..n - 1] + [s[n - 1]] && t[..n] == t[..n - 1] + [t[n - 1]];
    }
  }

  /** Two bytes make one limb. */
  lemma {:induction false} BytesAsLimbs(n: seq<byte>, o: seq<int64>, k: nat)
    requires k <= |o| && 2 * k <= |n|
    requires forall i :: 0 <= i < k ==> o[i] as int == n[2 * i] as int + 256 * n[2 * i + 1] as int
    ensures Sum(o, k) == LittleEndian(n, 2 * k)
  {
    if k > 0 {
      BytesAsLimbs(n, o, k - 1);
      var i := k - 1;
      var w := Weight(i);
      Pow2Weight(i);
      Pow2Split(8, 16 * i);
      assert Pow2(8 * (2 * i)) == w && Pow2(8 * (2 * i + 1)) == 256 * w;
      assert LittleEndian(n, 2 * k) == LittleEndian(n, 2 * i) + n[2 * i] as int * w + n[2 * i + 1] as int * (256 * w);
      Regroup(n[2 * i] as int, n[2 * i + 1] as int, w);
    }
  }

  lemma Regroup(x: int, y: int, w: int)
    ensures (x + 256 * y) * w == x * w + y * (256 * w)
  {
  }

  lemma {:induction false} ByteCongruence(s: seq<byte>, t: seq<byte>, n: nat)
    requires n <= |s| && n <= |t| && s[..n] == t[..n]
    ensures LittleEndian(s, n) == LittleEndian(t, n)
  {
    if n > 0 {
      assert s[..n][n - 1] == t[..n][n - 1];
      assert s[..n - 1] == s[..n][..n - 1] && t[..n - 1] == t[..n][..n - 1];
      ByteCongruence(s, t, n - 1);
    }
  }

  lemma OneByte(s: seq<byte>)
    requires s != []
    ensures LittleEndian(s, 1) == s[0] as int
  {
    assert LittleEndian(s, 0) == 0 && Pow2(0) == 1;
  }

  /** Only byte 0 differs. */
  lemma {:induction false} FirstByteChanged(s: seq<byte>, t: seq<byte>, n: nat)
    requires 0 < n <= |s| == |t|
    requires forall k :: 1 <= k < |s| - 1 ==> s[k] == t[k]
    requires n < |s|
    ensures LittleEndian(t, n) == LittleEndian(s, n) + t[0] as int - s[0] as int
  {
    if n == 1 {
      OneByte(s);
      OneByte(t);
    } else {
      FirstByteChanged(s, t, n - 1);
    }
  }

  /** The n little-endian bytes of v. */
  function Encode(v: int, n: nat): (s: seq<byte>)
    requires 0 <= v < Pow2(8 * n)
    ensures |s| == n
  {
    if n == 0 then []
    else
      TopByte(v, n);
      Encode(v % Pow2(8 * (n - 1)), n - 1) + [(v / Pow2(8 * (n - 1))) as byte]
  }

  lemma TopByte(v: int, n: nat)
    requires 0 < n && 0 <= v < Pow2(8 * n)
    ensures 0 <= v / Pow2(8 * (n - 1)) < 256
  {
    Pow2Split(8, 8 * (n - 1));
    Pow2Values();
    QuotientBelow(v, 256, Pow2(8 * (n - 1)));
  }

  lemma QuotientBelow(v: int, b: int, w: int)
    requires 0 <= v < b * w && w > 0
    ensures 0 <= v / w < b
  {
    var q := v / w;
    assert v == q * w + v % w;
    if q >= b {
      NonNegative(q - b, w);
    }
    if q < 0 {
      NonNegative(-1 - q, w);
    }
  }

  /** Encoding then decoding is the identity. */
  lemma {:induction false} EncodeDecodes(v: int, n: nat)
    requires 0 <= v < Pow2(8 * n)
    ensures LittleEndian(Encode(v, n), n) == v
  {
    if n > 0 {
      var w := Pow2(8 * (n - 1));
      TopByte(v, n);
      EncodeDecodes(v % w, n - 1);
      var s := Encode(v, n);
      var low := Encode(v % w, n - 1);
      ByteCongruence(s, low, n - 1);
    } else {
      assert Pow2(0) == 1;
    }
  }

  // ------------------------------------------------------------------
  // Bits
  // ------------------------------------------------------------------

  function Bit(v: int, i: nat): int {
    (v / Pow2(i)) % 2
  }

  lemma DivDiv(x: int, a: int, b: int)
    requires a > 0 && b > 0
    ensures a * b > 0 && (x / a) / b == x / (a * b)
  {
    var q, r := x / a, x % a;
    var q', r' := q / b, q % b;
    Reassociate(a, b, q');
    NestedRemainder(a, b, r', r);
    assert a * q == a * (b * q') + a * r';
    DivModUnique(x, q', a * r' + r, a * b);
  }

  lemma Reassociate(a: int, b: int, q: int)
    ensures a * (b * q) == q * (a * b)
  {
  }

  lemma NonNegative(a: int, b: int)
    requires a >= 0 && b >= 0
    ensures a * b >= 0
  {
  }

  lemma NestedRemainder(a: int, b: int, r: int, s: int)
    requires 0 <= r < b && 0 <= s < a
    ensures 0 <= a * r + s < a * b
  {
    NonNegative(a, r);
    NonNegative(a, b - 1 - r);
    assert a * b == a * r + a + a * (b - 1 - r);
  }

  /** A byte string as its low j bytes, byte j, and the rest. */
  lemma {:induction false} SplitAtByte(s: seq<byte>, j: nat, n: nat) returns (rest: int)
    requires j < n <= |s|
    ensures LittleEndian(s, n) == (s[j] as int + 256 * rest) * Pow2(8 * j) + LittleEndian(s, j)
  {
    if n == j + 1 {
      rest := 0;
    } else {
      var r := SplitAtByte(s, j, n - 1);
      var d := 8 * (n - 2 - j);
      assert 8 * (n - 1) == d + (8 + 8 * j);
      Pow2Split(d, 8 + 8 * j);
      Pow2Split(8, 8 * j);
      assert Pow2(8) == 256;
      var x := s[n - 1] as int;
      rest := r + x * Pow2(d);
      MoreBytes(s[j] as int, r, x, Pow2(d), Pow2(8 * j));
    }
  }

  lemma MoreBytes(b: int, r: int, x: int, p: int, w: int)
    ensures (b + 256 * (r + x * p)) * w == (b + 256 * r) * w + x * (p * (256 * w))
  {
    calc {
      x * (p * (256 * w));
      256 * (x * (p * w));
      256 * ((x * p) * w);
    }
  }

  /** Below bit 8 only the byte matters. */
  lemma LowBits(b: int, rest: int, r: nat)
    requires 0 <= b < 256 && r < 8
    ensures ((b + 256 * rest) / Pow2(r)) % 2 == (b / Pow2(r)) % 2
  {
    var p, h := Pow2(r), Pow2(7 - r);
    Pow2Split(r, 7 - r);
    Pow2Values();
    EvenMultiple(p, h, rest);
    Floors(b, (h * rest) * 2, p);
    ModAddMultiple(b / p, h * rest, 2);
  }

  lemma EvenMultiple(p: int, h: int, rest: int)
    requires p * h == 128
    ensures 256 * rest == ((h * rest) * 2) * p
  {
    calc {
      ((h * rest) * 2) * p;
      2 * ((p * h) * rest);
      256 * rest;
    }
  }

  lemma Floors(b: int, k: int, p: int)
    requires p > 0
    ensures (b + k * p) / p == b / p + k
  {
    assert b + k * p == (b / p + k) * p + b % p;
    DivModUnique(b + k * p, b / p + k, b % p, p);
  }

  /** Bit i of the number is bit i mod 8 of byte i div 8. */
  lemma BitOfByte(s: seq<byte>, i: nat)
    requires |s| == 32 && i < 256
    ensures Bit(LittleEndian(s, 32), i) == (s[i / 8] as int / Pow2(i % 8)) % 2
  {
    var j, r := i / 8, i % 8;
    var v := LittleEndian(s, 32);
    var rest := SplitAtByte(s, j, 32);
    LittleEndianBound(s, j);
    DivModUnique(v, s[j] as int + 256 * rest, LittleEndian(s, j), Pow2(8 * j));
    Pow2Split(8 * j, r);
    DivDiv(v, Pow2(8 * j), Pow2(r));
    LowBits(s[j] as int, rest, r);
  }
}
