// The boot regions of an exFAT volume: twelve sectors, twice, the last of them filled with
// the checksum of the others; and the up-case table.
module ExfatBoot {
  import opened Limbs
  import opened Bytes

  const SECTOR: nat := 512
  const COVERED: nat := 5632

  // ------------------------------------------------------------------
  // The checksum
  // ------------------------------------------------------------------

  type Sum = x: int | 0 <= x < 0x1_0000_0000

  /** One byte more, as section 3.4 of the exFAT specification has it: the lowest bit becomes
      the highest, the others move down, and the byte is added. */
  function Step(s: Sum, b: byte): Sum {
    ((if s % 2 == 1 then 0x8000_0000 else 0) + s / 2 + b as int) % 0x1_0000_0000
  }

  /** The volume flags and the percentage in use, which a driver changes. */
  predicate Volatile(k: nat) {
    k == 106 || k == 107 || k == 112
  }

  /** The checksum of the first n bytes of a boot region. */
  function BootSum(region: seq<byte>, n: nat): Sum
    requires n <= |region|
  {
    if n == 0 then 0 else if Volatile(n - 1) then BootSum(region, n - 1)
        else Step(BootSum(region, n - 1), region[n - 1])
  }

  /** Changing those three bytes leaves the checksum right. */
  lemma {:induction false} VolatileBytesFree(x: seq<byte>, y: seq<byte>, n: nat)
    requires n <= |x| && n <= |y| && forall k :: 0 <= k < n && !Volatile(k) ==> x[k] == y[k]
    ensures BootSum(x, n) == BootSum(y, n)
  {
    if n > 0 {
      VolatileBytesFree(x, y, n - 1);
    }
  }

  lemma StepInjective(s: Sum, t: Sum, b: byte)
    requires Step(s, b) == Step(t, b)
    ensures s == t
  {
  }

  lemma ByteMatters(s: Sum, b: byte, c: byte)
    requires Step(s, b) == Step(s, c)
    ensures b == c
  {
  }

  /** A wrong byte anywhere else shows, as long as it is the only one. */
  lemma {:induction false} OneByteShows(x: seq<byte>, y: seq<byte>, at: nat, n: nat)
    requires at < n <= |x| == |y| && !Volatile(at) && x[at] != y[at]
    requires forall k :: 0 <= k < n && k != at && !Volatile(k) ==> x[k] == y[k]
    ensures BootSum(x, n) != BootSum(y, n)
  {
    if at == n - 1 {
      VolatileBytesFree(x, y, at);
      if BootSum(x, n) == BootSum(y, n) {
        ByteMatters(BootSum(x, at), x[at], y[at]);
      }
    } else {
      OneByteShows(x, y, at, n - 1);
      if !Volatile(n - 1) && BootSum(x, n) == BootSum(y, n) {
        StepInjective(BootSum(x, n - 1), BootSum(y, n - 1), x[n - 1]);
      }
    }
  }

  // The loop's own sum over one stretch of bytes.
  function SumFrom(s: Sum, p: seq<byte>, n: nat, boot: bool): Sum
    requires n <= |p|
  {
    if n == 0 then s
    else if boot && Volatile(n - 1) then SumFrom(s, p, n - 1, boot)
    else Step(SumFrom(s, p, n - 1, boot), p[n - 1])
  }

  method Sum32(start: Sum, p: array<byte>, n: nat, boot: bool) returns (s: Sum)
    requires n <= p.Length
    ensures s == SumFrom(start, p[..], n, boot)
  {
    s := start;
    for i := 0 to n
      invariant s == SumFrom(start, p[..], i, boot)
    {
      if !boot || (i != 106 && i != 107 && i != 112) {
        s := AddByte(s, p[i]);
      }
    }
  }

  // s >> 1 and s << 31 share no bit.
  method AddByte(s: Sum, b: byte) returns (t: Sum)
    ensures t == Step(s, b)
  {
    var turned := s / 2 + s * 0x8000_0000 % 0x1_0000_0000;
    t := (turned + b as int) % 0x1_0000_0000;
  }

  /** Sector after sector is the whole region at once. */
  lemma {:induction false} SumContinues(region: seq<byte>, from: nat, p: seq<byte>, n: nat)
    requires n <= |p| && from + |p| <= |region| && region[from..from + |p|] == p && (from == 0 || from >= 113)
    ensures SumFrom(BootSum(region, from), p, n, from == 0) == BootSum(region, from + n)
  {
    if n > 0 {
      SumContinues(region, from, p, n - 1);
      assert p[n - 1] == region[from..from + |p|][n - 1] == region[from + n - 1];
    }
  }

  // ------------------------------------------------------------------
  // The regions
  // ------------------------------------------------------------------

  /** Sector i of a region before its checksum: the boot sector as it was built, eight
      extended boot sectors that are empty but for their mark, and two empty ones. */
  function PlainSector(boot: seq<byte>, i: nat): (s: seq<byte>)
    requires |boot| == SECTOR
    ensures |s| == SECTOR
  {
    var inner := if i == 0 then boot else Zeros(SECTOR);
    if i < 9 then inner[..510] + [0x55, 0xAA] else inner
  }

  /** The first n sectors. */
  function Region(boot: seq<byte>, n: nat): (r: seq<byte>)
    requires |boot| == SECTOR
    ensures |r| == SECTOR * n
  {
    if n == 0 then [] else Region(boot, n - 1) + PlainSector(boot, n - 1)
  }

  /** Four bytes, least significant first. */
  function Quad(x: Sum): (s: seq<byte>)
    ensures |s| == 4
  {
    [(x % 256) as byte, (x / 0x100 % 256) as byte, (x / 0x1_0000 % 256) as byte, (x / 0x100_0000) as byte]
  }

  /** They read back as the number. */
  lemma QuadReadBack(x: Sum)
    ensures Number(Quad(x), 0) == x
  {
    FourDigits(x);
  }

  lemma FourDigits(x: Sum)
    ensures x == x % 256 + 0x100 * (x / 0x100 % 256) + 0x1_0000 * (x / 0x1_0000 % 256) + 0x100_0000 * (x / 0x100_0000)
  {
  }

  /** The checksum over and over. */
  function SumSector(x: Sum): (s: seq<byte>)
    ensures |s| == SECTOR
  {
    seq(SECTOR, k => Quad(x)[k % 4])
  }

  /** A whole region; its last sector holds the checksum of the eleven before it. */
  function BootRegion(boot: seq<byte>): (r: seq<byte>)
    requires |boot| == SECTOR
    ensures |r| == 12 * SECTOR
  {
    Region(boot, 11) + SumSector(BootSum(Region(boot, 11), COVERED))
  }

  method FillSum(sec: array<byte>, chk: Sum)
    requires sec.Length == SECTOR
    modifies sec
    ensures sec[..] == SumSector(chk)
  {
    var c := 0;
    while c < SECTOR
      invariant c <= SECTOR && c % 4 == 0
      invariant forall k :: 0 <= k < c ==> sec[k] == Quad(chk)[k % 4]
    {
      var d := Quad(chk);
      sec[c], sec[c + 1], sec[c + 2], sec[c + 3] := d[0], d[1], d[2], d[3];
      c := c + 4;
    }
  }

  // One sector of either region, before the checksum.
  method BuildSector(boot: seq<byte>, i: nat) returns (sec: array<byte>)
    requires |boot| == SECTOR && i < 12
    ensures fresh(sec) && sec.Length == SECTOR && sec[..] == PlainSector(boot, i)
  {
    sec := new byte[SECTOR](_ => 0);
    if i == 0 {
      forall k | 0 <= k < SECTOR {
        sec[k] := boot[k];
      }
    }
    assert sec[..] == if i == 0 then boot else Zeros(SECTOR);
    if i < 9 {
      sec[510], sec[511] := 0x55, 0xAA;
    }
  }

  method WriteSector(image: array<byte>, at: nat, sec: array<byte>)
    requires sec.Length == SECTOR && at + SECTOR <= image.Length && sec != image
    modifies image
    ensures image[..] == old(image[..at]) + sec[..] + old(image[at + SECTOR..])
  {
    for i := 0 to SECTOR
      invariant forall k :: 0 <= k < image.Length ==>
                image[k] == if at <= k < at + i then sec[k - at] else old(image[k])
    {
      image[at + i] := sec[i];
    }
  }

  // What two regions hold once the first n sectors of both are written.
  ghost predicate BothHold(image: seq<byte>, before: seq<byte>, region: seq<byte>, n: nat) {
    && |region| == 12 * SECTOR && n <= 12 && 24 * SECTOR <= |image| == |before|
    && image[..SECTOR * n] == region[..SECTOR * n]
    && image[12 * SECTOR..12 * SECTOR + SECTOR * n] == region[..SECTOR * n]
    && image[24 * SECTOR..] == before[24 * SECTOR..]
  }

  lemma SectorHeld(image: seq<byte>, one: seq<byte>, two: seq<byte>, before: seq<byte>, region: seq<byte>,
                   sec: seq<byte>,
                   i: nat, at: nat)
    requires BothHold(image, before, region, i) && i < 12 && at == SECTOR * i && |sec| == SECTOR
    requires region[at..at + SECTOR] == sec
    requires one == image[..at] + sec + image[at + SECTOR..]
    requires two == one[..at + 12 * SECTOR] + sec + one[at + 13 * SECTOR..]
    ensures BothHold(two, before, region, i + 1)
  {
    var backup := 12 * SECTOR;
    assert SECTOR * (i + 1) == at + SECTOR && backup == 6144;
    assert region[..at + SECTOR] == region[..at] + sec;
    MainHeld(image, one, two, sec, at);
    BackupHeld(image, one, two, sec, at);
  }

  lemma MainHeld(image: seq<byte>, one: seq<byte>, two: seq<byte>, sec: seq<byte>, at: nat)
    requires |sec| == SECTOR && at + SECTOR <= 12 * SECTOR && 24 * SECTOR <= |image|
    requires one == image[..at] + sec + image[at + SECTOR..]
    requires two == one[..at + 12 * SECTOR] + sec + one[at + 13 * SECTOR..]
    ensures |two| == |image| && two[..at + SECTOR] == image[..at] + sec
  {
    assert one[..at + SECTOR] == image[..at] + sec;
    assert two[..at + SECTOR] == one[..at + SECTOR];
  }

  lemma BackupHeld(image: seq<byte>, one: seq<byte>, two: seq<byte>, sec: seq<byte>, at: nat)
    requires |sec| == SECTOR && at + SECTOR <= 12 * SECTOR && 24 * SECTOR <= |image|
    requires one == image[..at] + sec + image[at + SECTOR..]
    requires two == one[..at + 12 * SECTOR] + sec + one[at + 13 * SECTOR..]
    ensures |two| == |image| && two[24 * SECTOR..] == image[24 * SECTOR..]
    ensures two[12 * SECTOR..12 * SECTOR + (at + SECTOR)] == image[12 * SECTOR..12 * SECTOR + at] + sec
  {
    var backup := 12 * SECTOR;
    assert |one| == |image|;
    assert one[backup..] == image[backup..];
    assert two[backup..backup + at] == one[backup..backup + at] == one[backup..][..at] == image[backup..][..at];
    assert two[backup + at..backup + at + SECTOR] == sec;
    assert two[24 * SECTOR..] == one[24 * SECTOR..] == one[backup..][backup..] == image[backup..][backup..];
  }

  lemma {:induction false} RegionSector(boot: seq<byte>, i: nat, n: nat)
    requires |boot| == SECTOR && i < n
    ensures Region(boot, n)[SECTOR * i..SECTOR * i + SECTOR] == PlainSector(boot, i)
  {
    var front := Region(boot, n - 1);
    if i < n - 1 {
      RegionSector(boot, i, n - 1);
      InFront(front, PlainSector(boot, n - 1), SECTOR * i, SECTOR * i + SECTOR);
    }
  }

  lemma RegionParts(boot: seq<byte>, i: nat)
    requires |boot| == SECTOR && i < 12
    ensures BootRegion(boot)[SECTOR * i..SECTOR * i + SECTOR] ==
            if i < 11 then PlainSector(boot, i) else SumSector(BootSum(Region(boot, 11), COVERED))
  {
    var all := Region(boot, 11);
    var last := SumSector(BootSum(all, COVERED));
    if i < 11 {
      RegionSector(boot, i, 11);
      InFront(all, last, SECTOR * i, SECTOR * i + SECTOR);
    } else {
      Behind(all, last);
    }
  }

  lemma InFront(x: seq<byte>, y: seq<byte>, from: nat, to: nat)
    requires from <= to <= |x|
    ensures (x + y)[from..to] == x[from..to]
  {
  }

  lemma Behind(x: seq<byte>, y: seq<byte>)
    ensures (x + y)[|x|..|x| + |y|] == y
  {
  }

  /** Both boot regions are written, sector by sector, the checksum growing on the way; they
      are the same, and nothing after them changes. */
  method WriteBoot(image: array<byte>, boot: seq<byte>)
    requires |boot| == SECTOR && 24 * SECTOR <= image.Length
    modifies image
    ensures image[..12 * SECTOR] == BootRegion(boot) == image[12 * SECTOR..24 * SECTOR]
    ensures image[24 * SECTOR..] == old(image[24 * SECTOR..])
  {
    ghost var before, region := image[..], BootRegion(boot);
    var chk: Sum := 0;
    for i := 0 to 12
      invariant BothHold(image[..], before, region, i)
      invariant chk == BootSum(Region(boot, 11), SECTOR * (if i < 11 then i else 11))
    {
      chk := WriteOne(image, boot, i, chk, before);
    }
  }

  method WriteOne(image: array<byte>, boot: seq<byte>, i: nat, chk: Sum, ghost before: seq<byte>) returns (next: Sum)
    requires |boot| == SECTOR && i < 12 && BothHold(image[..], before, BootRegion(boot), i)
    requires chk == BootSum(Region(boot, 11), SECTOR * i)
    modifies image
    ensures BothHold(image[..], before, BootRegion(boot), i + 1)
    ensures next == BootSum(Region(boot, 11), SECTOR * (if i < 11 then i + 1 else 11))
  {
    next := chk;
    var sec := BuildSector(boot, i);
    RegionParts(boot, i);
    if i == 11 {
      FillSum(sec, chk);
    } else {
      RegionSector(boot, i, 11);
      SumContinues(Region(boot, 11), SECTOR * i, sec[..], SECTOR);
      next := Sum32(chk, sec, SECTOR, i == 0);
    }
    ghost var image0 := image[..];
    WriteSector(image, SECTOR * i, sec);
    ghost var image1 := image[..];
    WriteSector(image, SECTOR * (i + 12), sec);
    SectorHeld(image0, image1, image[..], before, BootRegion(boot), sec[..], i, SECTOR * i);
  }

  function Number(s: seq<byte>, at: nat): nat
    requires at + 4 <= |s|
  {
    s[at] as int + 0x100 * s[at + 1] as int + 0x1_0000 * s[at + 2] as int + 0x100_0000 * s[at + 3] as int
  }

  /** What a driver checks before it mounts: every number of the last sector is the checksum. */
  predicate Verifies(region: seq<byte>) {
    && |region| == 12 * SECTOR
    && forall k :: 0 <= k < 128 ==> Number(region, COVERED + 4 * k) == BootSum(region, COVERED)
  }

  /** What is written verifies. */
  lemma RegionVerifies(boot: seq<byte>)
    requires |boot| == SECTOR
    ensures Verifies(BootRegion(boot))
  {
    var region, front := BootRegion(boot), Region(boot, 11);
    var sum := BootSum(front, COVERED);
    VolatileBytesFree(region, front, COVERED);
    QuadReadBack(sum);
    forall k | 0 <= k < 128
      ensures Number(region, COVERED + 4 * k) == sum
    {
      var at := COVERED + 4 * k;
      assert region[at] == SumSector(sum)[4 * k] && region[at + 1] == SumSector(sum)[4 * k + 1];
      assert region[at + 2] == SumSector(sum)[4 * k + 2] && region[at + 3] == SumSector(sum)[4 * k + 3];
      QuadAt(sum, k);
    }
  }

  lemma QuadAt(x: Sum, k: nat)
    requires k < 128
    ensures SumSector(x)[4 * k..4 * k + 4] == Quad(x)
    ensures SumSector(x)[4 * k] == Quad(x)[0] && SumSector(x)[4 * k + 1] == Quad(x)[1]
    ensures SumSector(x)[4 * k + 2] == Quad(x)[2] && SumSector(x)[4 * k + 3] == Quad(x)[3]
  {
  }

  /** It goes on verifying whatever a driver puts into the three volatile bytes, and stops
      when one other byte before the checksum changes. */
  lemma VerifiesExactly(x: seq<byte>, y: seq<byte>, at: nat)
    requires Verifies(x) && |y| == |x| && at < COVERED && !Volatile(at)
    requires forall k :: 0 <= k < |x| && k != at && !Volatile(k) ==> x[k] == y[k]
    ensures Verifies(y) <==> x[at] == y[at]
  {
    assert Number(x, COVERED + 4 * 0) == Number(y, COVERED + 4 * 0);
    if x[at] == y[at] {
      VolatileBytesFree(x, y, COVERED);
      assert forall k :: 0 <= k < 128 ==> Number(x, COVERED + 4 * k) == Number(y, COVERED + 4 * k);
    } else {
      OneByteShows(x, y, at, COVERED);
    }
  }

  // ------------------------------------------------------------------
  // The up-case table
  // ------------------------------------------------------------------

  const LETTERS: nat := 26

  /** Identity up to the letters, the capitals, identity to the end. */
  function UpCase(): (up: seq<nat>)
    ensures |up| == 30
  {
    [0xFFFF, 97] + seq(LETTERS, i => 65 + i) + [0xFFFF, 0x1_0000 - 122 - 1]
  }

  /** What a table maps character c to, entry i standing for character `at`: FFFF and a count
      leave that many characters alone (section 7.2.5 of the exFAT specification). */
  function MapsTo(table: seq<nat>, i: nat, at: nat, c: nat): (m: int)
    requires i <= |table|
    decreases |table| - i
  {
    if i == |table| then -1
    else if table[i] == 0xFFFF && i + 1 < |table| then
      if c < at + table[i + 1] then c else MapsTo(table, i + 2, at + table[i + 1], c)
    else if c == at then table[i] else MapsTo(table, i + 1, at + 1, c)
  }

  lemma {:induction false} LettersMap(i: nat, c: nat)
    requires 2 <= i <= 28 && 95 + i <= c
    ensures MapsTo(UpCase(), i, 95 + i, c) == if c < 123 then c - 32 else MapsTo(UpCase(), 28, 123, c)
    decreases 28 - i
  {
    if i < 28 {
      assert UpCase()[i] == 65 + (i - 2);
      if c > 95 + i {
        LettersMap(i + 1, c);
      }
    }
  }

  /** The table covers every 16-bit character and raises exactly the letters a to z. */
  lemma UpCaseRaises(c: nat)
    requires c < 0x1_0000
    ensures MapsTo(UpCase(), 0, 0, c) == if 97 <= c <= 122 then c - 32 else c
  {
    if c >= 97 {
      LettersMap(2, c);
    }
  }
}
