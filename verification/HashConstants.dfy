// Where the constants of the two hashes come from: the fractional parts of the cube roots
// of the first primes and of the square roots of the first eight.
module HashConstants {
  import Limbs
  import Sha256
  import Sha512

  /** The first 80 primes, eight at a time. */
  function PrimeRow(n: nat): (r: seq<int>)
    requires n < 10
    ensures |r| == 8
  {
    if n == 0 then [2, 3, 5, 7, 11, 13, 17, 19]
    else if n == 1 then [23, 29, 31, 37, 41, 43, 47, 53]
    else if n == 2 then [59, 61, 67, 71, 73, 79, 83, 89]
    else if n == 3 then [97, 101, 103, 107, 109, 113, 127, 131]
    else if n == 4 then [137, 139, 149, 151, 157, 163, 167, 173]
    else if n == 5 then [179, 181, 191, 193, 197, 199, 211, 223]
    else if n == 6 then [227, 229, 233, 239, 241, 251, 257, 263]
    else if n == 7 then [269, 271, 277, 281, 283, 293, 307, 311]
    else if n == 8 then [313, 317, 331, 337, 347, 349, 353, 359]
    else [367, 373, 379, 383, 389, 397, 401, 409]
  }

  function Prime(i: nat): int
    requires i < 80
  {
    PrimeRow(i / 8)[i % 8]
  }

  function Cube(x: int): int { x * x * x }

  function Square(x: int): int { x * x }

  const W32: int := 0x1_0000_0000
  const W64: int := 0x1_0000_0000_0000_0000

  // q + v / w is the cube root of p rounded down to that many bits.
  predicate CubeBits(p: int, w: int, q: int, v: int) {
    0 <= v < w && Cube(q * w + v) <= p * Cube(w) < Cube(q * w + v + 1)
  }

  predicate SquareBits(p: int, w: int, q: int, v: int) {
    0 <= v < w && Square(q * w + v) <= p * Square(w) < Square(q * w + v + 1)
  }

  /** The first 32 bits of the fractional part of the cube root of p. */
  ghost predicate CubePart32(p: int, k: Sha256.word) {
    exists q: nat, v: int :: CubeBits(p, W32, q, v) && k == v as Sha256.word
  }

  ghost predicate SquarePart32(p: int, k: Sha256.word) {
    exists q: nat, v: int :: SquareBits(p, W32, q, v) && k == v as Sha256.word
  }

  /** The first 64 bits. */
  ghost predicate CubePart64(p: int, k: Sha512.word) {
    exists q: nat, v: int :: CubeBits(p, W64, q, v) && k == v as Sha512.word
  }

  ghost predicate SquarePart64(p: int, k: Sha512.word) {
    exists q: nat, v: int :: SquareBits(p, W64, q, v) && k == v as Sha512.word
  }

  lemma Row0Of32()
    ensures forall j :: 0 <= j < 8 ==> CubePart32(PrimeRow(0)[j], Sha256.Row(0)[j])
  {
    assert CubeBits(2, W32, 1, 0x428a2f98);
    assert CubeBits(3, W32, 1, 0x71374491);
    assert CubeBits(5, W32, 1, 0xb5c0fbcf);
    assert CubeBits(7, W32, 1, 0xe9b5dba5);
    assert CubeBits(11, W32, 2, 0x3956c25b);
    assert CubeBits(13, W32, 2, 0x59f111f1);
    assert CubeBits(17, W32, 2, 0x923f82a4);
    assert CubeBits(19, W32, 2, 0xab1c5ed5);
  }

  lemma Row1Of32()
    ensures forall j :: 0 <= j < 8 ==> CubePart32(PrimeRow(1)[j], Sha256.Row(1)[j])
  {
    assert CubeBits(23, W32, 2, 0xd807aa98);
    assert CubeBits(29, W32, 3, 0x12835b01);
    assert CubeBits(31, W32, 3, 0x243185be);
    assert CubeBits(37, W32, 3, 0x550c7dc3);
    assert CubeBits(41, W32, 3, 0x72be5d74);
    assert CubeBits(43, W32, 3, 0x80deb1fe);
    assert CubeBits(47, W32, 3, 0x9bdc06a7);
    assert CubeBits(53, W32, 3, 0xc19bf174);
  }

  lemma Row2Of32()
    ensures forall j :: 0 <= j < 8 ==> CubePart32(PrimeRow(2)[j], Sha256.Row(2)[j])
  {
    assert CubeBits(59, W32, 3, 0xe49b69c1);
    assert CubeBits(61, W32, 3, 0xefbe4786);
    assert CubeBits(67, W32, 4, 0x0fc19dc6);
    assert CubeBits(71, W32, 4, 0x240ca1cc);
    assert CubeBits(73, W32, 4, 0x2de92c6f);
    assert CubeBits(79, W32, 4, 0x4a7484aa);
    assert CubeBits(83, W32, 4, 0x5cb0a9dc);
    assert CubeBits(89, W32, 4, 0x76f988da);
  }

  lemma Row3Of32()
    ensures forall j :: 0 <= j < 8 ==> CubePart32(PrimeRow(3)[j], Sha256.Row(3)[j])
  {
    assert CubeBits(97, W32, 4, 0x983e5152);
    assert CubeBits(101, W32, 4, 0xa831c66d);
    assert CubeBits(103, W32, 4, 0xb00327c8);
    assert CubeBits(107, W32, 4, 0xbf597fc7);
    assert CubeBits(109, W32, 4, 0xc6e00bf3);
    assert CubeBits(113, W32, 4, 0xd5a79147);
    assert CubeBits(127, W32, 5, 0x06ca6351);
    assert CubeBits(131, W32, 5, 0x14292967);
  }

  lemma Row4Of32()
    ensures forall j :: 0 <= j < 8 ==> CubePart32(PrimeRow(4)[j], Sha256.Row(4)[j])
  {
    assert CubeBits(137, W32, 5, 0x27b70a85);
    assert CubeBits(139, W32, 5, 0x2e1b2138);
    assert CubeBits(149, W32, 5, 0x4d2c6dfc);
    assert CubeBits(151, W32, 5, 0x53380d13);
    assert CubeBits(157, W32, 5, 0x650a7354);
    assert CubeBits(163, W32, 5, 0x766a0abb);
    assert CubeBits(167, W32, 5, 0x81c2c92e);
    assert CubeBits(173, W32, 5, 0x92722c85);
  }

  lemma Row5Of32()
    ensures forall j :: 0 <= j < 8 ==> CubePart32(PrimeRow(5)[j], Sha256.Row(5)[j])
  {
    assert CubeBits(179, W32, 5, 0xa2bfe8a1);
    assert CubeBits(181, W32, 5, 0xa81a664b);
    assert CubeBits(191, W32, 5, 0xc24b8b70);
    assert CubeBits(193, W32, 5, 0xc76c51a3);
    assert CubeBits(197, W32, 5, 0xd192e819);
    assert CubeBits(199, W32, 5, 0xd6990624);
    assert CubeBits(211, W32, 5, 0xf40e3585);
    assert CubeBits(223, W32, 6, 0x106aa070);
  }

  lemma Row6Of32()
    ensures forall j :: 0 <= j < 8 ==> CubePart32(PrimeRow(6)[j], Sha256.Row(6)[j])
  {
    assert CubeBits(227, W32, 6, 0x19a4c116);
    assert CubeBits(229, W32, 6, 0x1e376c08);
    assert CubeBits(233, W32, 6, 0x2748774c);
    assert CubeBits(239, W32, 6, 0x34b0bcb5);
    assert CubeBits(241, W32, 6, 0x391c0cb3);
    assert CubeBits(251, W32, 6, 0x4ed8aa4a);
    assert CubeBits(257, W32, 6, 0x5b9cca4f);
    assert CubeBits(263, W32, 6, 0x682e6ff3);
  }

  lemma Row7Of32()
    ensures forall j :: 0 <= j < 8 ==> CubePart32(PrimeRow(7)[j], Sha256.Row(7)[j])
  {
    assert CubeBits(269, W32, 6, 0x748f82ee);
    assert CubeBits(271, W32, 6, 0x78a5636f);
    assert CubeBits(277, W32, 6, 0x84c87814);
    assert CubeBits(281, W32, 6, 0x8cc70208);
    assert CubeBits(283, W32, 6, 0x90befffa);
    assert CubeBits(293, W32, 6, 0xa4506ceb);
    assert CubeBits(307, W32, 6, 0xbef9a3f7);
    assert CubeBits(311, W32, 6, 0xc67178f2);
  }

  lemma Row0Of64()
    ensures forall j :: 0 <= j < 8 ==> CubePart64(PrimeRow(0)[j], Sha512.Row(0)[j])
  {
    assert CubeBits(2, W64, 1, 0x428a2f98d728ae22);
    assert CubeBits(3, W64, 1, 0x7137449123ef65cd);
    assert CubeBits(5, W64, 1, 0xb5c0fbcfec4d3b2f);
    assert CubeBits(7, W64, 1, 0xe9b5dba58189dbbc);
    assert CubeBits(11, W64, 2, 0x3956c25bf348b538);
    assert CubeBits(13, W64, 2, 0x59f111f1b605d019);
    assert CubeBits(17, W64, 2, 0x923f82a4af194f9b);
    assert CubeBits(19, W64, 2, 0xab1c5ed5da6d8118);
  }

  lemma Row1Of64()
    ensures forall j :: 0 <= j < 8 ==> CubePart64(PrimeRow(1)[j], Sha512.Row(1)[j])
  {
    assert CubeBits(23, W64, 2, 0xd807aa98a3030242);
    assert CubeBits(29, W64, 3, 0x12835b0145706fbe);
    assert CubeBits(31, W64, 3, 0x243185be4ee4b28c);
    assert CubeBits(37, W64, 3, 0x550c7dc3d5ffb4e2);
    assert CubeBits(41, W64, 3, 0x72be5d74f27b896f);
    assert CubeBits(43, W64, 3, 0x80deb1fe3b1696b1);
    assert CubeBits(47, W64, 3, 0x9bdc06a725c71235);
    assert CubeBits(53, W64, 3, 0xc19bf174cf692694);
  }

  lemma Row2Of64()
    ensures forall j :: 0 <= j < 8 ==> CubePart64(PrimeRow(2)[j], Sha512.Row(2)[j])
  {
    assert CubeBits(59, W64, 3, 0xe49b69c19ef14ad2);
    assert CubeBits(61, W64, 3, 0xefbe4786384f25e3);
    assert CubeBits(67, W64, 4, 0x0fc19dc68b8cd5b5);
    assert CubeBits(71, W64, 4, 0x240ca1cc77ac9c65);
    assert CubeBits(73, W64, 4, 0x2de92c6f592b0275);
    assert CubeBits(79, W64, 4, 0x4a7484aa6ea6e483);
    assert CubeBits(83, W64, 4, 0x5cb0a9dcbd41fbd4);
    assert CubeBits(89, W64, 4, 0x76f988da831153b5);
  }

  lemma Row3Of64()
    ensures forall j :: 0 <= j < 8 ==> CubePart64(PrimeRow(3)[j], Sha512.Row(3)[j])
  {
    assert CubeBits(97, W64, 4, 0x983e5152ee66dfab);
    assert CubeBits(101, W64, 4, 0xa831c66d2db43210);
    assert CubeBits(103, W64, 4, 0xb00327c898fb213f);
    assert CubeBits(107, W64, 4, 0xbf597fc7beef0ee4);
    assert CubeBits(109, W64, 4, 0xc6e00bf33da88fc2);
    assert CubeBits(113, W64, 4, 0xd5a79147930aa725);
    assert CubeBits(127, W64, 5, 0x06ca6351e003826f);
    assert CubeBits(131, W64, 5, 0x142929670a0e6e70);
  }

  lemma Row4Of64()
    ensures forall j :: 0 <= j < 8 ==> CubePart64(PrimeRow(4)[j], Sha512.Row(4)[j])
  {
    assert CubeBits(137, W64, 5, 0x27b70a8546d22ffc);
    assert CubeBits(139, W64, 5, 0x2e1b21385c26c926);
    assert CubeBits(149, W64, 5, 0x4d2c6dfc5ac42aed);
    assert CubeBits(151, W64, 5, 0x53380d139d95b3df);
    assert CubeBits(157, W64, 5, 0x650a73548baf63de);
    assert CubeBits(163, W64, 5, 0x766a0abb3c77b2a8);
    assert CubeBits(167, W64, 5, 0x81c2c92e47edaee6);
    assert CubeBits(173, W64, 5, 0x92722c851482353b);
  }

  lemma Row5Of64()
    ensures forall j :: 0 <= j < 8 ==> CubePart64(PrimeRow(5)[j], Sha512.Row(5)[j])
  {
    assert CubeBits(179, W64, 5, 0xa2bfe8a14cf10364);
    assert CubeBits(181, W64, 5, 0xa81a664bbc423001);
    assert CubeBits(191, W64, 5, 0xc24b8b70d0f89791);
    assert CubeBits(193, W64, 5, 0xc76c51a30654be30);
    assert CubeBits(197, W64, 5, 0xd192e819d6ef5218);
    assert CubeBits(199, W64, 5, 0xd69906245565a910);
    assert CubeBits(211, W64, 5, 0xf40e35855771202a);
    assert CubeBits(223, W64, 6, 0x106aa07032bbd1b8);
  }

  lemma Row6Of64()
    ensures forall j :: 0 <= j < 8 ==> CubePart64(PrimeRow(6)[j], Sha512.Row(6)[j])
  {
    assert CubeBits(227, W64, 6, 0x19a4c116b8d2d0c8);
    assert CubeBits(229, W64, 6, 0x1e376c085141ab53);
    assert CubeBits(233, W64, 6, 0x2748774cdf8eeb99);
    assert CubeBits(239, W64, 6, 0x34b0bcb5e19b48a8);
    assert CubeBits(241, W64, 6, 0x391c0cb3c5c95a63);
    assert CubeBits(251, W64, 6, 0x4ed8aa4ae3418acb);
    assert CubeBits(257, W64, 6, 0x5b9cca4f7763e373);
    assert CubeBits(263, W64, 6, 0x682e6ff3d6b2b8a3);
  }

  lemma Row7Of64()
    ensures forall j :: 0 <= j < 8 ==> CubePart64(PrimeRow(7)[j], Sha512.Row(7)[j])
  {
    assert CubeBits(269, W64, 6, 0x748f82ee5defb2fc);
    assert CubeBits(271, W64, 6, 0x78a5636f43172f60);
    assert CubeBits(277, W64, 6, 0x84c87814a1f0ab72);
    assert CubeBits(281, W64, 6, 0x8cc702081a6439ec);
    assert CubeBits(283, W64, 6, 0x90befffa23631e28);
    assert CubeBits(293, W64, 6, 0xa4506cebde82bde9);
    assert CubeBits(307, W64, 6, 0xbef9a3f7b2c67915);
    assert CubeBits(311, W64, 6, 0xc67178f2e372532b);
  }

  lemma Row8Of64()
    ensures forall j :: 0 <= j < 8 ==> CubePart64(PrimeRow(8)[j], Sha512.Row(8)[j])
  {
    assert CubeBits(313, W64, 6, 0xca273eceea26619c);
    assert CubeBits(317, W64, 6, 0xd186b8c721c0c207);
    assert CubeBits(331, W64, 6, 0xeada7dd6cde0eb1e);
    assert CubeBits(337, W64, 6, 0xf57d4f7fee6ed178);
    assert CubeBits(347, W64, 7, 0x06f067aa72176fba);
    assert CubeBits(349, W64, 7, 0x0a637dc5a2c898a6);
    assert CubeBits(353, W64, 7, 0x113f9804bef90dae);
    assert CubeBits(359, W64, 7, 0x1b710b35131c471b);
  }

  lemma Row9Of64()
    ensures forall j :: 0 <= j < 8 ==> CubePart64(PrimeRow(9)[j], Sha512.Row(9)[j])
  {
    assert CubeBits(367, W64, 7, 0x28db77f523047d84);
    assert CubeBits(373, W64, 7, 0x32caab7b40c72493);
    assert CubeBits(379, W64, 7, 0x3c9ebe0a15c9bebc);
    assert CubeBits(383, W64, 7, 0x431d67c49c100d4c);
    assert CubeBits(389, W64, 7, 0x4cc5d4becb3e42b6);
    assert CubeBits(397, W64, 7, 0x597f299cfc657e2a);
    assert CubeBits(401, W64, 7, 0x5fcb6fab3ad6faec);
    assert CubeBits(409, W64, 7, 0x6c44198c4a475817);
  }

  /** Round constant i is the fractional part of the cube root of prime i (section 4.2.2 of
      FIPS 180-4). */
  lemma RootsOf256(i: nat)
    requires i < 64
    ensures CubePart32(Prime(i), Sha256.K()[i])
  {
    match i / 8
    case 0 => Row0Of32();
    case 1 => Row1Of32();
    case 2 => Row2Of32();
    case 3 => Row3Of32();
    case 4 => Row4Of32();
    case 5 => Row5Of32();
    case 6 => Row6Of32();
    case _ => Row7Of32();
  }

  /** Round constant i is the fractional part of the cube root of prime i (section 4.2.3 of
      FIPS 180-4). */
  lemma RootsOf512(i: nat)
    requires i < 80
    ensures CubePart64(Prime(i), Sha512.K()[i])
  {
    match i / 8
    case 0 => Row0Of64();
    case 1 => Row1Of64();
    case 2 => Row2Of64();
    case 3 => Row3Of64();
    case 4 => Row4Of64();
    case 5 => Row5Of64();
    case 6 => Row6Of64();
    case 7 => Row7Of64();
    case 8 => Row8Of64();
    case _ => Row9Of64();
  }

  /** The initial values are those of the square roots of the first eight (section 5.3.3). */
  lemma InitialOf256()
    ensures var h := Sha256.Initial();
            && SquarePart32(2, h.a) && SquarePart32(3, h.b)
            && SquarePart32(5, h.c) && SquarePart32(7, h.d)
            && SquarePart32(11, h.e) && SquarePart32(13, h.f)
            && SquarePart32(17, h.g) && SquarePart32(19, h.h)
  {
    assert SquareBits(2, W32, 1, 0x6a09e667);
    assert SquareBits(3, W32, 1, 0xbb67ae85);
    assert SquareBits(5, W32, 2, 0x3c6ef372);
    assert SquareBits(7, W32, 2, 0xa54ff53a);
    assert SquareBits(11, W32, 3, 0x510e527f);
    assert SquareBits(13, W32, 3, 0x9b05688c);
    assert SquareBits(17, W32, 4, 0x1f83d9ab);
    assert SquareBits(19, W32, 4, 0x5be0cd19);
  }

  /** The initial values are those of the square roots of the first eight (section 5.3.5). */
  lemma InitialOf512()
    ensures var h := Sha512.Initial();
            && SquarePart64(2, h.a) && SquarePart64(3, h.b)
            && SquarePart64(5, h.c) && SquarePart64(7, h.d)
            && SquarePart64(11, h.e) && SquarePart64(13, h.f)
            && SquarePart64(17, h.g) && SquarePart64(19, h.h)
  {
    assert SquareBits(2, W64, 1, 0x6a09e667f3bcc908);
    assert SquareBits(3, W64, 1, 0xbb67ae8584caa73b);
    assert SquareBits(5, W64, 2, 0x3c6ef372fe94f82b);
    assert SquareBits(7, W64, 2, 0xa54ff53a5f1d36f1);
    assert SquareBits(11, W64, 3, 0x510e527fade682d1);
    assert SquareBits(13, W64, 3, 0x9b05688c2b3e6c1f);
    assert SquareBits(17, W64, 4, 0x1f83d9abfb41bd6b);
    assert SquareBits(19, W64, 4, 0x5be0cd19137e2179);
  }

  /** A root has only one fractional part of so many bits. */
  lemma OnlyOnePart(p: int, w: int, q: int, v: int, q': int, v': int)
    requires w > 0 && q >= 0 && q' >= 0 && CubeBits(p, w, q, v) && CubeBits(p, w, q', v')
    ensures q == q' && v == v'
  {
    var x, y := q * w + v, q' * w + v';
    if x < y {
      CubeGrows(x + 1, y);
    } else if y < x {
      CubeGrows(y + 1, x);
    }
    OneQuotient(w, q, v, q', v');
  }

  lemma CubeGrows(x: int, y: int)
    requires x <= y
    ensures Cube(x) <= Cube(y)
  {
  }

  lemma OneQuotient(w: int, q: int, v: int, q': int, v': int)
    requires w > 0 && 0 <= v < w && 0 <= v' < w && q * w + v == q' * w + v'
    ensures q == q' && v == v'
  {
    Limbs.DivModUnique(q * w + v, q, v, w);
    Limbs.DivModUnique(q * w + v, q', v', w);
  }
}
