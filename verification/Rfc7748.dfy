// The X25519 function over integers, as section 5 of RFC 7748 describes it.
module Rfc7748 {
  import opened Limbs
  import opened Bytes

  function FAdd(x: int, y: int): int { (x + y) % P }
  function FSub(x: int, y: int): int { (x - y) % P }
  function FMul(x: int, y: int): int { (x * y) % P }

  /** x to the e, reduced at every step. */
  function FPow(x: int, e: nat): int {
    if e == 0 then 1 else FMul(FPow(x, e - 1), x)
  }

  /** decodeScalar25519: clear the low three bits, drop the top two, set bit 254. */
  function DecodeScalar(s: seq<byte>): int
    requires |s| == 32
  {
    var top := R / 4;
    top + LittleEndian(s, 32) % top / 8 * 8
  }

  /** decodeUCoordinate: the top bit is ignored, the rest is taken as it is. */
  function DecodeU(u: seq<byte>): int
    requires |u| == 32
  {
    LittleEndian(u, 32) % (P + 19)
  }

  datatype Ladder = Ladder(x2: int, z2: int, x3: int, z3: int, swap: int)

  /** The body of the RFC's loop, after the conditional swaps. */
  function Differential(x1: int, x2: int, z2: int, x3: int, z3: int, kt: int): Ladder {
    var a := FAdd(x2, z2);
    var aa := FMul(a, a);
    var b := FSub(x2, z2);
    var bb := FMul(b, b);
    var e := FSub(aa, bb);
    var c := FAdd(x3, z3);
    var d := FSub(x3, z3);
    var da := FMul(d, a);
    var cb := FMul(c, b);
    var sum := FAdd(da, cb);
    var diff := FSub(da, cb);
    Ladder(FMul(aa, bb), FMul(e, FAdd(aa, FMul(121665, e))),
           FMul(sum, sum), FMul(x1, FMul(diff, diff)), kt)
  }

  /** One iteration, with the swap kept pending until the bits differ. */
  function Iterate(x1: int, s: Ladder, kt: int): Ladder {
    if s.swap != kt then Differential(x1, s.x3, s.z3, s.x2, s.z2, kt)
    else Differential(x1, s.x2, s.z2, s.x3, s.z3, kt)
  }

  /** The state once the bits from 254 down to t have been processed. */
  function After(k: int, x1: int, t: nat): Ladder
    requires t <= 255
    decreases 255 - t
  {
    if t == 255 then Ladder(1, 0, x1, 1, 0) else Iterate(x1, After(k, x1, t + 1), Bit(k, t))
  }

  /** The number whose little-endian bytes X25519 returns. */
  function X25519(k: int, u: int): int {
    var x1 := u % P;
    var s := After(k, x1, 0);
    var (x2, z2) := if s.swap == 1 then (s.x3, s.z3) else (s.x2, s.z2);
    FMul(x2, FPow(z2, P - 2))
  }
}
