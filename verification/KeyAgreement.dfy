// The ladder in place: seven limb buffers, reused as the formulas go.
module KeyAgreement {
  import opened Limbs
  import opened FieldOps
  import opened FieldCodec
  import opened Bytes
  import opened Rfc7748
  import opened MontgomeryLadder

  predicate AllDistinct(a: array<int64>, b: array<int64>, c: array<int64>, d: array<int64>,
                        e: array<int64>, f: array<int64>, x: array<int64>) {
    && a != b && a != c && a != d && a != e && a != f && a != x
    && b != c && b != d && b != e && b != f && b != x
    && c != d && c != e && c != f && c != x
    && d != e && d != f && d != x
    && e != f && e != x && f != x
  }

  // From (x2, z2) in (a, c) and (x3, z3) in (b, d): the sums and differences.
  method Sums(a: array<int64>, b: array<int64>, c: array<int64>, d: array<int64>, e: array<int64>)
    requires a != b && a != c && a != d && a != e && b != c && b != d && b != e && c != d && c != e && d != e
    requires Tight(a[..]) && Tight(b[..]) && Tight(c[..]) && Tight(d[..]) && e.Length == 16
    modifies a, b, c, e
    ensures Loose(a[..]) && Loose(b[..]) && Loose(c[..]) && Loose(e[..])
    ensures var x2, x3, z2, z3 := old(Fe(a[..])), old(Fe(b[..])), old(Fe(c[..])), Fe(d[..]);
            && Fe(e[..]) == FAdd(x2, z2) && Fe(a[..]) == FSub(x2, z2)
            && Fe(c[..]) == FAdd(x3, z3) && Fe(b[..]) == FSub(x3, z3)
  {
    Add(e, a, c);
    Sub(a, a, c);
    Add(c, b, d);
    Sub(b, b, d);
  }

  // And the products that both halves of the step need.
  method FirstHalf(a: array<int64>, b: array<int64>, c: array<int64>, d: array<int64>,
                   e: array<int64>, f: array<int64>, ghost x: array<int64>)
    requires AllDistinct(a, b, c, d, e, f, x)
    requires Tight(a[..]) && Tight(b[..]) && Tight(c[..]) && Tight(d[..])
    requires e.Length == f.Length == 16
    modifies a, b, c, d, e, f
    ensures Tight(a[..]) && Tight(c[..]) && Tight(d[..]) && Tight(f[..])
    ensures var x2, x3, z2, z3 := old(Fe(a[..])), old(Fe(b[..])), old(Fe(c[..])), old(Fe(d[..]));
            var s, t := FAdd(x2, z2), FSub(x2, z2);
            && Fe(d[..]) == FMul(s, s) && Fe(f[..]) == FMul(t, t)
            && Fe(a[..]) == FMul(FAdd(x3, z3), t) && Fe(c[..]) == FMul(FSub(x3, z3), s)
  {
    Sums(a, b, c, d, e);
    Square(d, e);
    Square(f, a);
    Mul(a, c, a);
    Mul(c, b, e);
  }

  // (DA + CB) in e, (DA - CB)^2 in b, E in c and E * a24 + AA in a.
  method Middle(a: array<int64>, b: array<int64>, c: array<int64>, d: array<int64>,
                e: array<int64>, f: array<int64>, k: array<int64>)
    requires AllDistinct(a, b, c, d, e, f, k)
    requires Tight(a[..]) && Tight(c[..]) && Tight(d[..]) && Tight(f[..])
    requires b.Length == e.Length == 16
    requires Loose(k[..]) && Fe(k[..]) == 121665
    modifies a, b, c, e
    ensures Loose(a[..]) && Tight(b[..]) && Loose(c[..]) && Loose(e[..])
    ensures var cb, da, aa, bb := old(Fe(a[..])), old(Fe(c[..])), Fe(d[..]), Fe(f[..]);
            var t, m := FSub(cb, da), FSub(aa, bb);
            && Fe(e[..]) == FAdd(cb, da) && Fe(b[..]) == FMul(t, t)
            && Fe(c[..]) == m && Fe(a[..]) == FAdd(FMul(m, 121665), aa)
  {
    Add(e, a, c);
    Sub(a, a, c);
    Square(b, a);
    Sub(c, d, f);
    Mul(a, c, k);
    Add(a, a, d);
  }

  method SecondHalf(a: array<int64>, b: array<int64>, c: array<int64>, d: array<int64>,
                    e: array<int64>, f: array<int64>, x: array<int64>, k: array<int64>)
    requires AllDistinct(a, b, c, d, e, f, x) && k !in {a, b, c, d, e, f}
    requires Tight(a[..]) && Tight(c[..]) && Tight(d[..]) && Tight(f[..]) && Tight(x[..])
    requires b.Length == e.Length == 16
    requires Loose(k[..]) && Fe(k[..]) == 121665
    modifies a, b, c, d, e
    ensures Tight(a[..]) && Tight(b[..]) && Tight(c[..]) && Tight(d[..])
    ensures var cb, da, aa, bb := old(Fe(a[..])), old(Fe(c[..])), old(Fe(d[..])), Fe(f[..]);
            var s, t, m := FAdd(cb, da), FSub(cb, da), FSub(aa, bb);
            && Fe(a[..]) == FMul(aa, bb) && Fe(c[..]) == FMul(m, FAdd(FMul(m, 121665), aa))
            && Fe(b[..]) == FMul(s, s) && Fe(d[..]) == FMul(FMul(t, t), Fe(x[..]))
  {
    Middle(a, b, c, d, e, f, k);
    Mul(c, c, a);
    Mul(a, d, f);
    Mul(d, b, x);
    Square(b, e);
  }

  /** The buffers' formulas are the RFC's, up to the order of operands and one sign. */
  lemma SameFormulas(x1: int, x2: int, z2: int, x3: int, z3: int, kt: int)
    ensures var aa, bb := FMul(FAdd(x2, z2), FAdd(x2, z2)), FMul(FSub(x2, z2), FSub(x2, z2));
            var cb, da := FMul(FAdd(x3, z3), FSub(x2, z2)), FMul(FSub(x3, z3), FAdd(x2, z2));
            var s, t, m := FAdd(cb, da), FSub(cb, da), FSub(aa, bb);
            Differential(x1, x2, z2, x3, z3, kt) ==
            Ladder(FMul(aa, bb), FMul(m, FAdd(FMul(m, 121665), aa)), FMul(s, s), FMul(FMul(t, t), x1), kt)
  {
    var cb, da := FMul(FAdd(x3, z3), FSub(x2, z2)), FMul(FSub(x3, z3), FAdd(x2, z2));
    SquareOfDifference(cb, da);
  }

  lemma SquareOfDifference(x: int, y: int)
    ensures FMul(FSub(x, y), FSub(x, y)) == FMul(FSub(y, x), FSub(y, x))
  {
    ModSquareOfNegation(x - y, y - x, P);
  }

  // One iteration of the loop, between its two conditional swaps.
  method Step(a: array<int64>, b: array<int64>, c: array<int64>, d: array<int64>,
              e: array<int64>, f: array<int64>, x: array<int64>, k: array<int64>, ghost kt: int)
    requires AllDistinct(a, b, c, d, e, f, x) && k !in {a, b, c, d, e, f}
    requires Tight(a[..]) && Tight(b[..]) && Tight(c[..]) && Tight(d[..]) && Tight(x[..])
    requires e.Length == f.Length == 16
    requires Loose(k[..]) && Fe(k[..]) == 121665
    modifies a, b, c, d, e, f
    ensures Tight(a[..]) && Tight(b[..]) && Tight(c[..]) && Tight(d[..])
    ensures Ladder(Fe(a[..]), Fe(c[..]), Fe(b[..]), Fe(d[..]), kt) ==
            Differential(Fe(x[..]), old(Fe(a[..])), old(Fe(c[..])), old(Fe(b[..])), old(Fe(d[..])), kt)
  {
    SameFormulas(Fe(x[..]), Fe(a[..]), Fe(c[..]), Fe(b[..]), Fe(d[..]), kt);
    FirstHalf(a, b, c, d, e, f, x);
    SecondHalf(a, b, c, d, e, f, x, k);
  }

  // ------------------------------------------------------------------
  // Inversion
  // ------------------------------------------------------------------

  /** The exponent reached when bits 253 down to a are done: it doubles at each
      squaring and grows by one unless the multiplication is skipped. */
  function Exponent(a: nat): (e: nat)
    requires a <= 254
    decreases 254 - a
  {
    if a == 254 then 1 else 2 * Exponent(a + 1) + (if a == 2 || a == 4 then 0 else 1)
  }

  lemma {:induction false} ExponentAllOnes(a: nat)
    requires 5 <= a <= 254
    ensures Exponent(a) == Pow2(255 - a) - 1
    decreases 254 - a
  {
    if a == 254 {
      assert Pow2(1) == 2;
    } else {
      ExponentAllOnes(a + 1);
    }
  }

  /** Skipping bits 2 and 4 leaves exactly p - 2. */
  lemma ExponentIsPMinusTwo()
    ensures Exponent(0) == P - 2
  {
    ExponentAllOnes(5);
    Pow2Of255();
    Pow2Split(5, 250);
    assert Pow2(5) == 32;
    var e := Exponent(5);
    assert Exponent(4) == 2 * e;
    assert Exponent(3) == 4 * e + 1;
    assert Exponent(2) == 8 * e + 2;
    assert Exponent(1) == 16 * e + 5;
  }

  lemma FMulAssociative(x: int, y: int, z: int)
    ensures FMul(FMul(x, y), z) == FMul(x, FMul(y, z))
  {
    ModMul3(x, y, z, P);
  }

  lemma ModMul3(x: int, y: int, z: int, m: int)
    requires m > 0
    ensures ((x * y) % m * z) % m == (x * ((y * z) % m)) % m
  {
    ModMulLeft(x * y, z, m);
    ModMulLeft(y * z, x, m);
    assert (x * y) * z == (y * z) * x;
    assert ((y * z) % m) * x == x * ((y * z) % m);
  }

  lemma ModMulLeft(x: int, y: int, m: int)
    requires m > 0
    ensures ((x % m) * y) % m == (x * y) % m
  {
    ReplaceFactor(x, x / m, x % m, y, m);
  }

  lemma ReplaceFactor(x: int, q: int, r: int, y: int, m: int)
    requires m > 0 && x == q * m + r
    ensures (r * y) % m == (x * y) % m
  {
    PullMultiple(q, m, r, y);
    ModAddMultiple(r * y, q * y, m);
  }

  lemma PullMultiple(q: int, m: int, r: int, y: int)
    ensures (q * m + r) * y == r * y + (q * y) * m
  {
  }

  lemma {:induction false} FPowAdd(x: int, i: nat, j: nat)
    ensures FMul(FPow(x, i), FPow(x, j)) == FPow(x, i + j) % P
  {
    if j == 0 {
    } else {
      FPowAdd(x, i, j - 1);
      FPowStep(FPow(x, i), FPow(x, j - 1), FPow(x, i + j - 1), x);
      FPowReduced(x, i + j);
    }
  }

  lemma FPowStep(u: int, v: int, w: int, x: int)
    requires FMul(u, v) == w % P
    ensures FMul(u, FMul(v, x)) == FMul(w, x)
  {
    FMulAssociative(u, v, x);
    ModMulLeft(w, x, P);
  }

  lemma FPowReduced(x: int, e: nat)
    ensures FPow(x, e) % P == FPow(x, e)
  {
  }

  lemma SquareAndMultiply(x: int, a: nat)
    requires a < 254
    ensures var f := FPow(x, Exponent(a + 1));
            FPow(x, Exponent(a)) == if a != 2 && a != 4 then FMul(FMul(f, f), x) else FMul(f, f)
  {
    var e := Exponent(a + 1);
    FPowAdd(x, e, e);
    FPowReduced(x, 2 * e);
  }

  // Square and multiply from bit 253 down; c starts at z and z stays.
  method RaiseInPlace(c: array<int64>, z: array<int64>)
    requires c != z && Tight(c[..]) && Tight(z[..]) && c[..] == z[..]
    modifies c
    ensures Tight(c[..]) && Fe(c[..]) == FPow(Fe(z[..]), Exponent(0))
  {
    ghost var x := Fe(z[..]);
    assert FPow(x, 1) == x;
    var a := 254;
    while a > 0
      invariant 0 <= a <= 254
      invariant Tight(c[..]) && Fe(c[..]) == FPow(x, Exponent(a))
    {
      a := a - 1;
      RaiseOnce(c, z, a, x);
    }
  }

  method RaiseOnce(c: array<int64>, z: array<int64>, a: nat, ghost x: int)
    requires c != z && Tight(c[..]) && Tight(z[..]) && a < 254 && x == Fe(z[..])
    requires Fe(c[..]) == FPow(x, Exponent(a + 1))
    modifies c
    ensures Tight(c[..]) && Fe(c[..]) == FPow(x, Exponent(a))
  {
    SquareAndMultiply(x, a);
    Square(c, c);
    if a != 2 && a != 4 {
      Mul(c, c, z);
    }
  }

  /** z^(p-2); the destination may be the operand. */
  method Invert(o: array<int64>, z: array<int64>)
    requires o.Length == 16 && Tight(z[..])
    modifies o
    ensures Tight(o[..]) && Fe(o[..]) == FPow(old(Fe(z[..])), P - 2)
  {
    var c := new int64[16](_ => 0);
    CopyLow(c, z);
    assert c[..] == z[..];
    RaiseInPlace(c, z);
    ExponentIsPMinusTwo();
    CopyLow(o, c);
    assert o[..] == c[..];
  }

  // ------------------------------------------------------------------
  // The function
  // ------------------------------------------------------------------

  method Clamp(z: array<byte>, scalar: array<byte>)
    requires z.Length == scalar.Length == 32 && z != scalar
    modifies z
    ensures LittleEndian(z[..], 32) == DecodeScalar(scalar[..])
  {
    for i := 0 to 32
      invariant forall k :: 0 <= k < i ==> z[k] == scalar[k]
    {
      z[i] := scalar[i];
    }
    z[0] := z[0] / 8 * 8;
    z[31] := z[31] % 128;
    z[31] := z[31] % 64 + 64;
    ClampedValue(scalar[..], z[..]);
  }

  lemma ClampedValue(s: seq<byte>, z: seq<byte>)
    requires |s| == |z| == 32
    requires forall k :: 1 <= k < 31 ==> z[k] == s[k]
    requires z[0] as int == s[0] as int - s[0] as int % 8
    requires z[31] as int == s[31] as int % 64 + 64
    ensures LittleEndian(z, 32) == DecodeScalar(s)
  {
    var w, low := Pow2(248), LittleEndian(s, 31);
    TopWeights();
    FirstByteChanged(s, z, 31);
    var rest := SplitAtByte(s, 0, 31);
    assert Pow2(0) == 1 && LittleEndian(s, 0) == 0;
    LittleEndianBound(s, 31);
    Masked(low, LittleEndian(z, 31), s[0] as int, s[31] as int, z[31] as int, rest, Pow2(245), w);
  }

  // Low three bits cleared, bit 254 set, the bit above it dropped.
  lemma Masked(low: int, cleared: int, first: int, last: int, top: int, rest: int, h: int, w: int)
    requires w == 8 * h && 0 <= low < w && low == first + 256 * rest && 0 <= first && 0 <= last
    requires cleared == low - first % 8 && top == last % 64 + 64
    ensures cleared + top * w == 64 * w + (low + last * w) % (64 * w) / 8 * 8
  {
    var r := last % 64;
    TopPart(low, last, last / 64, r, w);
    RoundDown(low, r, rest, h, first);
    Distribute(w, r, 64);
  }

  lemma TopWeights()
    ensures R / 4 == 64 * Pow2(248) && Pow2(248) == 8 * Pow2(245)
  {
    Pow2Of255();
    Pow2Split(6, 248);
    Pow2Split(3, 245);
    assert Pow2(6) == 64 && Pow2(3) == 8;
  }

  lemma TopPart(low: int, b: int, q: int, r: int, w: int)
    requires 0 <= low < w && b == 64 * q + r && 0 <= r < 64
    ensures (low + b * w) % (64 * w) == low + r * w
  {
    assert b * w == q * (64 * w) + r * w;
    assert 0 <= r * w <= 63 * w by {
      DigitTimes(r, w);
      DigitTimes(63 - r, w);
    }
    DivModUnique(low + b * w, q, low + r * w, 64 * w);
  }

  lemma RoundDown(low: int, r: int, rest: int, h: int, b: int)
    requires low == b + 256 * rest && 0 <= b
    ensures (low + r * (8 * h)) / 8 * 8 == low - b % 8 + r * (8 * h)
  {
    var k := b / 8 + 32 * rest + r * h;
    assert r * (8 * h) == 8 * (r * h);
    DivModUnique(low + r * (8 * h), k, b % 8, 8);
  }

  /** The buffers hold the RFC's state with its pending swap already undone. */
  predicate Pending(s: Ladder, a: int, b: int, c: int, d: int) {
    && (s.swap == 0 || s.swap == 1)
    && (if s.swap == 1 then (s.x3, s.z3, s.x2, s.z2) else (s.x2, s.z2, s.x3, s.z3)) == (a, c, b, d)
  }

  method Start(a: array<int64>, b: array<int64>, c: array<int64>, d: array<int64>, x: array<int64>)
    requires a.Length == b.Length == c.Length == d.Length == 16 && Tight(x[..])
    requires a != b && a != c && a != d && b != c && b != d && c != d && x !in {a, b, c, d}
    modifies a, b, c, d
    ensures Tight(a[..]) && Tight(b[..]) && Tight(c[..]) && Tight(d[..])
    ensures Fe(a[..]) == 1 && Fe(b[..]) == Fe(x[..]) && Fe(c[..]) == 0 && Fe(d[..]) == 1
  {
    for i := 0 to 16
      invariant forall j :: 0 <= j < i ==> b[j] == x[j] && d[j] == 0 && a[j] == 0 && c[j] == 0
    {
      b[i], d[i], a[i], c[i] := x[i], 0, 0, 0;
    }
    a[0] := 1;
    d[0] := 1;
    SmallValue(a[..], 16, 1);
    SmallValue(c[..], 16, 0);
    SmallValue(d[..], 16, 1);
    assert b[..] == x[..];
  }

  lemma {:induction false} SmallValue(s: seq<int64>, n: nat, v: int)
    requires 0 < n <= |s| && s[0] as int == v && forall k :: 1 <= k < n ==> s[k] == 0
    ensures Sum(s, n) == v
  {
    if n == 1 {
      assert Sum(s, 1) == s[0] as int * Weight(0);
    } else {
      SmallValue(s, n - 1, v);
    }
  }

  lemma ConstantValue(k: seq<int64>)
    requires |k| == 16 && k[0] == 0xdb41 && k[1] == 1 && forall i :: 2 <= i < 16 ==> k[i] == 0
    ensures Loose(k) && Fe(k) == 121665
  {
    var low := k[1 := 0];
    SmallValue(low, 16, 0xdb41);
    SumUpdate(low, k, 1, 16);
    assert Weight(1) == 65536;
  }

  // (z[i >> 3] >> (i & 7)) & 1
  method BitAt(z: array<byte>, i: nat) returns (r: int)
    requires z.Length == 32 && i < 255
    ensures r == Bit(LittleEndian(z[..], 32), i) && (r == 0 || r == 1)
  {
    BitOfByte(z[..], i);
    r := (z[i / 8] as int / Pow2(i % 8)) % 2;
  }

  // The loop body: swap, step, swap back.
  method SwapStep(a: array<int64>, b: array<int64>, c: array<int64>, d: array<int64>,
                  e: array<int64>, f: array<int64>, x: array<int64>, k: array<int64>,
                  r: int, ghost s: Ladder)
    requires AllDistinct(a, b, c, d, e, f, x) && k !in {a, b, c, d, e, f}
    requires Tight(a[..]) && Tight(b[..]) && Tight(c[..]) && Tight(d[..]) && Tight(x[..])
    requires e.Length == f.Length == 16
    requires Loose(k[..]) && Fe(k[..]) == 121665
    requires r == 0 || r == 1
    requires Pending(s, Fe(a[..]), Fe(b[..]), Fe(c[..]), Fe(d[..]))
    modifies a, b, c, d, e, f
    ensures Tight(a[..]) && Tight(b[..]) && Tight(c[..]) && Tight(d[..])
    ensures Pending(Iterate(Fe(x[..]), s, r), Fe(a[..]), Fe(b[..]), Fe(c[..]), Fe(d[..]))
  {
    Select(a, b, r);
    Select(c, d, r);
    Step(a, b, c, d, e, f, x, k, r);
    Select(a, b, r);
    Select(c, d, r);
  }

  // The 255 iterations.
  method RunLadder(z: array<byte>, a: array<int64>, b: array<int64>, c: array<int64>, d: array<int64>, x: array<int64>)
    requires z.Length == 32
    requires a != b && a != c && a != d && b != c && b != d && c != d && x !in {a, b, c, d}
    requires Tight(a[..]) && Tight(b[..]) && Tight(c[..]) && Tight(d[..]) && Tight(x[..])
    requires Fe(a[..]) == 1 && Fe(b[..]) == Fe(x[..]) && Fe(c[..]) == 0 && Fe(d[..]) == 1
    modifies a, b, c, d
    ensures Tight(a[..]) && Tight(c[..])
    ensures Pending(After(LittleEndian(z[..], 32), Fe(x[..]), 0), Fe(a[..]), Fe(b[..]), Fe(c[..]), Fe(d[..]))
  {
    var e, f := new int64[16](_ => 0), new int64[16](_ => 0);
    var k := new int64[16](i => if i == 0 then 0xdb41 else if i == 1 then 1 else 0);
    ConstantValue(k[..]);
    ghost var s, x1 := LittleEndian(z[..], 32), Fe(x[..]);
    var i := 255;
    while i > 0
      invariant 0 <= i <= 255
      invariant Tight(a[..]) && Tight(b[..]) && Tight(c[..]) && Tight(d[..])
      invariant Loose(k[..]) && Fe(k[..]) == 121665
      invariant Pending(After(s, x1, i), Fe(a[..]), Fe(b[..]), Fe(c[..]), Fe(d[..]))
    {
      i := i - 1;
      var r := BitAt(z, i);
      SwapStep(a, b, c, d, e, f, x, k, r, After(s, x1, i + 1));
    }
  }

  // x2 and z2 at the end of the ladder.
  method Project(z: array<byte>, x: array<int64>) returns (a: array<int64>, c: array<int64>)
    requires z.Length == 32 && Tight(x[..])
    ensures fresh(a) && fresh(c) && a != c && Tight(a[..]) && Tight(c[..])
    ensures var s := After(LittleEndian(z[..], 32), Fe(x[..]), 0);
            (Fe(a[..]), Fe(c[..])) == if s.swap == 1 then (s.x3, s.z3) else (s.x2, s.z2)
  {
    a, c := new int64[16](_ => 0), new int64[16](_ => 0);
    var b, d := new int64[16](_ => 0), new int64[16](_ => 0);
    Start(a, b, c, d, x);
    RunLadder(z, a, b, c, d, x);
  }

  method Compute(out: array<byte>, scalar: array<byte>, point: array<byte>)
    requires out.Length == scalar.Length == point.Length == 32
    modifies out
    ensures LittleEndian(out[..], 32) ==
            Rfc7748.X25519(old(DecodeScalar(scalar[..])), old(DecodeU(point[..])))
  {
    var z := new byte[32](_ => 0);
    var x := new int64[16](_ => 0);
    Clamp(z, scalar);
    Unpack(x, point);
    var a, c := Project(z, x);
    Finish(out, a, c);
  }

  /** Writes the bytes of the X25519 function, for every scalar and every point: the x
      coordinate of the multiple of the point by the scalar. */
  method X25519InPlace(out: array<byte>, scalar: array<byte>, point: array<byte>)
    requires out.Length == scalar.Length == point.Length == 32
    modifies out
    ensures LittleEndian(out[..], 32) ==
            Rfc7748.X25519(old(DecodeScalar(scalar[..])), old(DecodeU(point[..])))
    ensures old(0 <= DecodeScalar(scalar[..]) <= Pow2(255))
    ensures LittleEndian(out[..], 32) ==
            Quotient(old(Multiple(DecodeU(point[..]) % P, DecodeScalar(scalar[..]), 255)))
  {
    ScalarDecoded(scalar[..]);
    ghost var k, u := DecodeScalar(scalar[..]), DecodeU(point[..]);
    X25519IsMultiple(k, u);
    Compute(out, scalar, point);
  }

  // x2 / z2, packed.
  method Finish(out: array<byte>, a: array<int64>, c: array<int64>)
    requires out.Length == 32 && a != c && Tight(a[..]) && Tight(c[..])
    modifies out, a, c
    ensures LittleEndian(out[..], 32) == FMul(old(Fe(a[..])), FPow(old(Fe(c[..])), P - 2))
  {
    Invert(c, c);
    Mul(a, a, c);
    Pack(out, a);
  }
}
