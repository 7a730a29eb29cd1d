// What the ladder computes: multiples of a point of y^2 = x^3 + 486662 x^2 + x over
// the integers mod 2^255-19, by the doubling and the differential addition of that
// curve, one for each bit of the scalar.
module MontgomeryLadder {
  import opened Limbs
  import opened Bytes
  import opened Rfc7748

  /** The coefficient of the curve. */
  const A: int := 486662

  /** An x coordinate as the fraction x / z; z is zero at infinity. */
  datatype Ratio = Ratio(x: int, z: int)

  function Sq(x: int): int { x * x }

  /** Twice a point, modulo m. */
  function DoubleOver(m: nat, p: Ratio): Ratio
    requires m > 0
  {
    Ratio(Sq(Sq(p.x) - Sq(p.z)) % m, 4 * (p.x * p.z) * (Sq(p.x) + A * (p.x * p.z) + Sq(p.z)) % m)
  }

  /** The sum of two points whose difference has the x coordinate x1. */
  function SumOver(m: nat, x1: int, p: Ratio, q: Ratio): Ratio
    requires m > 0
  {
    Ratio(4 * Sq(p.x * q.x - p.z * q.z) % m, 4 * x1 * Sq(p.x * q.z - p.z * q.x) % m)
  }

  function Double(p: Ratio): Ratio { DoubleOver(P, p) }

  function SumOf(x1: int, p: Ratio, q: Ratio): Ratio { SumOver(P, x1, p, q) }

  /** n times the point x1, for an n of so many bits: an even multiple is twice the
      half, an odd one the sum of two neighbours. */
  function Multiple(x1: int, n: nat, bits: nat): Ratio
    requires n <= Pow2(bits)
    decreases bits
  {
    if bits == 0 then (if n == 0 then Ratio(1, 0) else Ratio(x1, 1))
    else if n % 2 == 0 then Double(Multiple(x1, n / 2, bits - 1))
    else SumOf(x1, Multiple(x1, n / 2, bits - 1), Multiple(x1, n / 2 + 1, bits - 1))
  }

  /** The pair that stands for the smaller multiple, the pending swap undone. */
  function Lower(s: Ladder): Ratio {
    if s.swap == 1 then Ratio(s.x3, s.z3) else Ratio(s.x2, s.z2)
  }

  function Upper(s: Ladder): Ratio {
    if s.swap == 1 then Ratio(s.x2, s.z2) else Ratio(s.x3, s.z3)
  }

  // ------------------------------------------------------------------
  // The formulas of the step
  // ------------------------------------------------------------------

  lemma SquareParts(x: int, z: int)
    ensures Sq(x + z) == Sq(x) + 2 * (x * z) + Sq(z)
    ensures Sq(x - z) == Sq(x) - 2 * (x * z) + Sq(z)
  {
  }

  lemma SumTimesDifference(x: int, z: int)
    ensures Sq(x + z) * Sq(x - z) == Sq(Sq(x) - Sq(z))
  {
    var s, d := x + z, x - z;
    assert s * d == Sq(x) - Sq(z);
    SquareOfProduct(s, d);
  }

  lemma SquareOfProduct(s: int, d: int)
    ensures Sq(s) * Sq(d) == Sq(s * d)
  {
    assert s * s * (d * d) == s * (s * d) * d == s * d * (s * d);
  }

  /** The half of the step that doubles, modulo any m. */
  lemma Doubles(m: nat, x: int, z: int)
    requires m > 0
    ensures var aa, bb := (x + z) % m * ((x + z) % m) % m, (x - z) % m * ((x - z) % m) % m;
            var e := (aa - bb) % m;
            Ratio(aa * bb % m, e * ((aa + 121665 * e % m) % m) % m) == DoubleOver(m, Ratio(x, z))
  {
    var aa, bb, n := Sq(x + z), Sq(x - z), 4 * (x * z);
    ModMul(x + z, x + z, m);
    ModMul(x - z, x - z, m);
    ModMul(aa, bb, m);
    SumTimesDifference(x, z);
    SquareParts(x, z);
    ModSub(aa, bb, m);
    ModMulRight(121665, n, m);
    ModAdd(aa, 121665 * n, m);
    ModMul(n, aa + 121665 * n, m);
  }

  lemma CrossSum(x2: int, z2: int, x3: int, z3: int)
    ensures (x3 - z3) * (x2 + z2) + (x3 + z3) * (x2 - z2) == 2 * (x2 * x3 - z2 * z3)
    ensures (x3 - z3) * (x2 + z2) - (x3 + z3) * (x2 - z2) == -2 * (x2 * z3 - z2 * x3)
  {
  }

  lemma SquareOfTwice(u: int, v: int)
    requires u == 2 * v || u == -2 * v
    ensures Sq(u) == 4 * Sq(v)
  {
  }

  // The two products of the step, added and subtracted, modulo any m.
  lemma CrossProducts(m: nat, x2: int, z2: int, x3: int, z3: int)
    requires m > 0
    ensures var da, cb := (x3 - z3) % m * ((x2 + z2) % m) % m, (x3 + z3) % m * ((x2 - z2) % m) % m;
            && (da + cb) % m == 2 * (x2 * x3 - z2 * z3) % m
            && (da - cb) % m == -2 * (x2 * z3 - z2 * x3) % m
  {
    var da, cb := (x3 - z3) * (x2 + z2), (x3 + z3) * (x2 - z2);
    ModMul(x3 - z3, x2 + z2, m);
    ModMul(x3 + z3, x2 - z2, m);
    ModAdd(da, cb, m);
    ModSub(da, cb, m);
    CrossSum(x2, z2, x3, z3);
  }

  /** The half of the step that adds, modulo any m. */
  lemma Adds(m: nat, x1: int, x2: int, z2: int, x3: int, z3: int)
    requires m > 0
    ensures var da, cb := (x3 - z3) % m * ((x2 + z2) % m) % m, (x3 + z3) % m * ((x2 - z2) % m) % m;
            var sum, diff := (da + cb) % m, (da - cb) % m;
            Ratio(sum * sum % m, x1 * (diff * diff % m) % m) == SumOver(m, x1, Ratio(x2, z2), Ratio(x3, z3))
  {
    CrossProducts(m, x2, z2, x3, z3);
    var p, q := x2 * x3 - z2 * z3, x2 * z3 - z2 * x3;
    ModMul(2 * p, 2 * p, m);
    ModMul(-2 * q, -2 * q, m);
    SquareOfTwice(2 * p, p);
    SquareOfTwice(-2 * q, q);
    ModMulRight(x1, 4 * Sq(q), m);
    Regrouped(x1, Sq(q));
  }

  lemma Regrouped(x1: int, v: int)
    ensures x1 * (4 * v) == 4 * x1 * v
  {
  }

  // ------------------------------------------------------------------
  // The ladder
  // ------------------------------------------------------------------

  /** The step doubles one pair and adds the two. */
  lemma StepIs(x1: int, p: Ratio, q: Ratio, kt: int)
    ensures var d, s := Double(p), SumOf(x1, p, q);
            Differential(x1, p.x, p.z, q.x, q.z, kt) == Ladder(d.x, d.z, s.x, s.z, kt)
  {
    Doubles(P, p.x, p.z);
    Adds(P, x1, p.x, p.z, q.x, q.z);
  }

  /** One bit: the lower pair doubles on a zero, the upper one on a one, and the other
      becomes the sum, whatever swap was pending. */
  lemma OneBit(x1: int, s: Ladder, kt: int)
    requires (s.swap == 0 || s.swap == 1) && (kt == 0 || kt == 1)
    ensures var t := Iterate(x1, s, kt);
            && Lower(t) == (if kt == 0 then Double(Lower(s)) else SumOf(x1, Lower(s), Upper(s)))
            && Upper(t) == (if kt == 0 then SumOf(x1, Lower(s), Upper(s)) else Double(Upper(s)))
  {
    var p, q := Lower(s), Upper(s);
    if kt == 0 {
      StepIs(x1, p, q, kt);
    } else {
      StepIs(x1, q, p, kt);
      SumCommutes(x1, p, q);
    }
  }

  lemma SumCommutes(x1: int, p: Ratio, q: Ratio)
    ensures SumOf(x1, p, q) == SumOf(x1, q, p)
  {
    Opposite(p.x * q.z - p.z * q.x, q.x * p.z - q.z * p.x);
  }

  lemma Opposite(u: int, v: int)
    requires u == -v
    ensures Sq(u) == Sq(v)
  {
  }

  /** The leading bits of a scalar from bit t on, out of 255. */
  function Leading(k: nat, t: nat): nat
    requires t <= 255
  {
    k % Pow2(255) / Pow2(t)
  }

  lemma LeadingBits(k: nat, t: nat)
    requires t <= 255
    ensures Leading(k, 255) == 0 && Leading(k, 0) == k % Pow2(255) && Leading(k, t) < Pow2(255 - t)
  {
    var v := k % Pow2(255);
    Pow2Split(255 - t, t);
    QuotientBelow(v, Pow2(255 - t), Pow2(t));
    QuotientBelow(v, 1, Pow2(255));
  }

  lemma NextBit(k: nat, t: nat)
    requires t < 255
    ensures Leading(k, t) == 2 * Leading(k, t + 1) + Bit(k, t)
  {
    var v := k % Pow2(255);
    Pow2Split(t, 1);
    assert Pow2(1) == 2;
    DivDiv(v, Pow2(t), 2);
    Pow2Split(254 - t, t + 1);
    LowBitsKept(k, v, k / Pow2(255), Pow2(254 - t), Pow2(t));
  }

  // The bits below the part dropped are the same.
  lemma LowBitsKept(k: int, r: int, h: int, a: int, w: int)
    requires w > 0 && k == r + h * (a * (w * 2))
    ensures (r / w) % 2 == (k / w) % 2
  {
    Halved(h, a, w);
    DivisionSplit(r, w);
    Distributed(r / w, 2 * (h * a), w);
    assert k == (r / w + 2 * (h * a)) * w + r % w;
    DivModUnique(k, r / w + 2 * (h * a), r % w, w);
    ModAddMultiple(r / w, h * a, 2);
  }

  lemma Distributed(p: int, q: int, w: int)
    ensures (p + q) * w == p * w + q * w
  {
  }

  lemma DivisionSplit(v: int, b: int)
    requires b > 0
    ensures v == v / b * b + v % b
  {
  }

  lemma Halved(h: int, a: int, w: int)
    ensures h * (a * (w * 2)) == (2 * (h * a)) * w
  {
    assert h * (a * (w * 2)) == h * a * (w * 2) == 2 * (h * a) * w;
  }

  /** The pairs are a multiple and the next one. */
  predicate Holds(s: Ladder, x1: int, n: nat, bits: nat) {
    && (s.swap == 0 || s.swap == 1) && n < Pow2(bits)
    && Lower(s) == Multiple(x1, n, bits) && Upper(s) == Multiple(x1, n + 1, bits)
  }

  lemma HoldsNext(s: Ladder, x1: int, n: nat, bits: nat, kt: int)
    requires Holds(s, x1, n, bits) && (kt == 0 || kt == 1)
    ensures Holds(Iterate(x1, s, kt), x1, 2 * n + kt, bits + 1)
  {
    OneBit(x1, s, kt);
    assert (2 * n + 1) / 2 == n && (2 * n + 2) / 2 == n + 1;
  }

  /** After the bits from t up, the pairs are the multiples by those bits read as a
      number and by one more. */
  lemma {:induction false} LadderIsMultiple(k: nat, x1: int, t: nat)
    requires t <= 255
    ensures Holds(After(k, x1, t), x1, Leading(k, t), 255 - t)
    decreases 255 - t
  {
    if t < 255 {
      LadderIsMultiple(k, x1, t + 1);
      NextBit(k, t);
      HoldsNext(After(k, x1, t + 1), x1, Leading(k, t + 1), 254 - t, Bit(k, t));
    } else {
      LeadingBits(k, 255);
    }
  }

  // ------------------------------------------------------------------
  // The scalar
  // ------------------------------------------------------------------

  /** A decoded scalar is a multiple of 8 whose highest bit is bit 254. */
  lemma ScalarDecoded(s: seq<byte>)
    requires |s| == 32
    ensures var k := DecodeScalar(s); k % 8 == 0 && Pow2(254) <= k < Pow2(255)
  {
    Pow2Of255();
    Pow2Split(1, 254);
    Pow2Split(3, 251);
    assert Pow2(1) == 2 && Pow2(3) == 8;
    Clamped(LittleEndian(s, 32), Pow2(254), Pow2(251));
  }

  lemma Clamped(n: int, top: int, e: int)
    requires top == 8 * e && e > 0
    ensures var k := top + n % top / 8 * 8; k % 8 == 0 && top <= k < 2 * top
  {
  }

  /** Bits 3 to 253 are those of the bytes. */
  lemma ScalarBits(s: seq<byte>, i: nat)
    requires |s| == 32 && 3 <= i < 254
    ensures Bit(DecodeScalar(s), i) == Bit(LittleEndian(s, 32), i)
  {
    var n, top := LittleEndian(s, 32), Pow2(254);
    Pow2Of255();
    Pow2Split(i, 254 - i);
    Pow2Split(1, 253 - i);
    Pow2Split(3, i - 3);
    assert Pow2(1) == 2 && Pow2(3) == 8;
    var a, w, e := Pow2(253 - i), Pow2(i), Pow2(i - 3);
    TopWeight(a, w, top);
    DivisionSplit(n, top);
    ClampedBit(n, n / top, n % top, a, w, e);
  }

  lemma TopWeight(a: int, w: int, top: int)
    requires top == w * (2 * a)
    ensures top == a * (w * 2)
  {
  }

  // w is the weight of the bit, 2 * a * w that of bit 254.
  lemma ClampedBit(n: int, h: int, v: int, a: int, w: int, e: int)
    requires v >= 0 && e > 0 && w == 8 * e && n == v + h * (a * (w * 2))
    ensures ((a * (w * 2) + v / 8 * 8) / w) % 2 == (n / w) % 2
  {
    LowBitsKept(n, v, h, a, w);
    var low := v / 8 * 8;
    LowBitsKept(a * (w * 2) + low, low, 1, a, w);
    DivDiv(v, 8, e);
    DivDiv(low, 8, e);
    assert low / 8 == v / 8;
  }

  /** A decoded coordinate has the bits of the bytes up to bit 254 and no others. */
  lemma CoordinateBits(u: seq<byte>, i: nat)
    requires |u| == 32 && i < 255
    ensures 0 <= DecodeU(u) < Pow2(255) && Bit(DecodeU(u), i) == Bit(LittleEndian(u, 32), i)
  {
    var n := LittleEndian(u, 32);
    Pow2Of255();
    Pow2Split(i, 255 - i);
    Pow2Split(1, 254 - i);
    assert Pow2(1) == 2;
    TopWeight(Pow2(254 - i), Pow2(i), Pow2(255));
    DivisionSplit(n, Pow2(255));
    LowBitsKept(n, n % Pow2(255), n / Pow2(255), Pow2(254 - i), Pow2(i));
  }

  /** x / z mod 2^255-19. */
  function Quotient(m: Ratio): int {
    FMul(m.x, FPow(m.z, P - 2))
  }

  /** X25519 is the x coordinate of the multiple by the scalar. */
  lemma X25519IsMultiple(k: nat, u: int)
    requires k < Pow2(255)
    ensures X25519(k, u) == Quotient(Multiple(u % P, k, 255))
  {
    LeadingBits(k, 0);
    LadderIsMultiple(k, u % P, 0);
    Small(k, Pow2(255));
  }

  lemma Small(k: nat, m: int)
    requires k < m
    ensures k % m == k
  {
  }
}
