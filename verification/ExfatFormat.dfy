// Formatting an exFAT volume: where the regions lie, the cluster chain of the
// allocation bitmap, and the bitmap itself.
module ExfatFormat {
  import opened Bitmaps
  import opened Words

  const SECTOR: int := 512
  const FAT_OFFSET: int := 128
  // The largest device that is accepted, and the first whose bitmap marks do not fit a sector.
  const LARGEST: int := 0x100_01FF_FAFF
  const CROWDED: int := 0xFF_E1FF_C600
  const END: uint32 := 0xFFFF_FFFF

  // Sectors per cluster, FAT sectors, first heap sector, clusters, bitmap clusters.
  datatype Layout = Layout(cluster: int, fat: int, heap: int, count: int, bitmap: int)

  /** The regions of sections 3.1, 4.1 and 7.1 of the exFAT specification: the FAT
      has an entry for every cluster and two more, the heap follows it on a cluster
      boundary and with its clusters fits the device, the bitmap has a bit for every
      cluster, and bitmap, up-case table and root directory fit the heap. */
  predicate Sound(l: Layout, total: int) {
    && l.cluster in {8, 64, 256}
    && l.fat * (SECTOR / 4) >= l.count + 2
    && FAT_OFFSET + l.fat <= l.heap < FAT_OFFSET + l.fat + l.cluster
    && l.heap % l.cluster == 0
    && l.heap + l.count * l.cluster <= total < l.heap + (l.count + 1) * l.cluster
    && l.bitmap * l.cluster * SECTOR * 8 >= l.count
    && (l.bitmap - 1) * l.cluster * SECTOR * 8 < l.count
    && 1 <= l.bitmap && l.bitmap + 2 <= l.count <= 0xFFFF_FFF5
    && l.heap < 0x1_0000_0000
  }

  /** Where the regions of a device of `total` sectors go; the FAT length is kept in
      32 bits. */
  function Regions(total: int, cluster: int): Layout
    requires total >= 2048 && cluster in {8, 64, 256}
  {
    var fat := FatSectors((total - FAT_OFFSET) / cluster) % 0x1_0000_0000;
    var heap := RoundUp(FAT_OFFSET + fat, cluster);
    var count := if total > heap then (total - heap) / cluster else 0;
    Layout(cluster, fat, heap, count, CeilDiv(CeilDiv(count, 8), SECTOR * cluster))
  }

  function CeilDiv(x: int, m: int): int
    requires m > 0
  {
    (x + m - 1) / m
  }

  function RoundUp(x: int, m: int): int
    requires m > 0
  {
    (x + m - 1) / m * m
  }

  function FatSectors(clusters: int): int {
    CeilDiv((clusters + 2) * 4, SECTOR)
  }

  predicate Accepted(l: Layout) {
    l.bitmap + 2 <= l.count <= 0xFFFF_FFF5
  }

  /** Lays the volume out, or refuses the device: one on which the FAT length wraps has
      too many clusters and is refused.  The devices taken are those of 2048 to
      0x10001FFFAFF sectors (1 MiB to a little over 512 TiB). */
  method Plan(total: uint64) returns (plan: Option<Layout>)
    requires total < 0x80_0000_0000_0000
    ensures plan.Some? ==> Sound(plan.value, total as int) && total >= 2048
    ensures plan.Some? ==> plan.value == Regions(total as int, ClusterSize(total as int))
    ensures plan.Some? <==> 2048 <= total as int <= LARGEST
  {
    // The sizes of a device of fewer than 128 sectors wrap; this test rejects them.
    if total < 2048 {
      return None;
    }
    var cluster: uint64 := if total <= 256 * 2048 then 8 else if total <= 32 * 0x20_0000 then 64 else 256;
    var l := Compute(total, cluster);
    RegionsSound(total as int);
    if l.count < l.bitmap + 2 || l.count > 0xFFFF_FFF5 {
      return None;
    }
    plan := Some(l);
  }

  // Larger devices get larger clusters.
  function ClusterSize(total: int): int {
    if total <= 0x8_0000 then 8 else if total <= 0x400_0000 then 64 else 256
  }

  // The arithmetic in 64 bits.
  method Compute(total: uint64, cluster: uint64) returns (l: Layout)
    requires 2048 <= total < 0x80_0000_0000_0000 && cluster in {8, 64, 256}
    ensures l == Regions(total as int, cluster as int)
  {
    var count := Divide(total - 128, cluster);
    var fat := ((count + 2) * 4 + 512 - 1) / 512 % 0x1_0000_0000;
    var heap := AlignUp(128 + fat, cluster);
    if total > heap {
      count := Divide(total - heap, cluster);
    } else {
      count := 0;
    }
    var bitmap := DivideUp((count + 7) / 8, 512 * cluster);
    l := Layout(cluster as int, fat as int, heap as int, count as int, bitmap as int);
  }

  method Divide(x: uint64, m: uint64) returns (q: uint64)
    requires m in {8, 64, 256}
    ensures q as int == x as int / m as int && q <= x
  {
    Quotient(x as int, m as int);
    q := x / m;
  }

  method AlignUp(x: uint64, m: uint64) returns (y: uint64)
    requires x < 0x1000_0000_0000_0000 && m in {8, 64, 256}
    ensures y as int == RoundUp(x as int, m as int)
  {
    Quotient((x + m - 1) as int, m as int);
    y := (x + m - 1) / m * m;
  }

  method DivideUp(x: uint64, m: uint64) returns (q: uint64)
    requires x < 0x1000_0000_0000_0000 && 0 < m < 0x10_0000
    ensures q as int == CeilDiv(x as int, m as int)
  {
    q := (x + m - 1) / m;
  }

  lemma Quotient(x: int, m: int)
    requires x >= 0 && m in {8, 64, 256}
    ensures 0 <= x / m <= x && x - m < x / m * m <= x
  {
    Floor(x, m);
  }

  lemma RegionsSound(total: int)
    requires 2048 <= total < 0x80_0000_0000_0000
    ensures var l := Regions(total, ClusterSize(total));
            (Accepted(l) ==> Sound(l, total)) && (Accepted(l) <==> total <= LARGEST)
            && (Accepted(l) ==> (l.bitmap + 2 <= SECTOR * 8 <==> total < CROWDED))
  {
    SoundAt(total, ClusterSize(total));
  }

  lemma SoundAt(total: int, m: int)
    requires 2048 <= total < 0x80_0000_0000_0000 && m == ClusterSize(total)
    ensures var l := Regions(total, m);
            (Accepted(l) ==> Sound(l, total)) && (Accepted(l) <==> total <= LARGEST)
            && (Accepted(l) ==> (l.bitmap + 2 <= SECTOR * 8 <==> total < CROWDED))
  {
    var first := (total - FAT_OFFSET) / m;
    Floor(total - FAT_OFFSET, m);
    FatBounds(first);
    var fat := FatSectors(first) % 0x1_0000_0000;
    Ceiling(FAT_OFFSET + fat, m);
    var heap := RoundUp(FAT_OFFSET + fat, m);
    HeapSound(total, m, first, FatSectors(first), fat, heap, (total - heap) / m, Regions(total, m));
  }

  lemma HeapSound(total: int, m: int, first: int, whole: int, fat: int, heap: int, count: int, l: Layout)
    requires 2048 <= total < 0x80_0000_0000_0000 && m == ClusterSize(total)
    requires first * m <= total - FAT_OFFSET < (first + 1) * m
    requires 128 * whole - 128 < first + 2 <= 128 * whole && fat == whole % 0x1_0000_0000
    requires FAT_OFFSET + fat <= heap < FAT_OFFSET + fat + m && heap % m == 0
    requires count == (total - heap) / m
    requires l == Layout(m, fat, heap, if total > heap then count else 0, l.bitmap)
    requires l.bitmap == CeilDiv(CeilDiv(l.count, 8), SECTOR * m)
    ensures (Accepted(l) ==> Sound(l, total)) && (Accepted(l) <==> total <= LARGEST)
    ensures Accepted(l) ==> (l.bitmap + 2 <= SECTOR * 8 <==> total < CROWDED)
  {
    Floor(total - heap, m);
    CountSound(total, m, first, whole, fat, heap, count);
    BitmapBounds(l.count, m);
    MarksFit(l.count, m, l.bitmap);
    if l.count >= 128 {
      BitmapSmall(m, l.count, l.bitmap);
    }
  }

  // The device sizes whose clusters are few enough, and few enough for one bitmap sector.
  lemma CountSound(total: int, m: int, first: int, whole: int, fat: int, heap: int, count: int)
    requires 2048 <= total < 0x80_0000_0000_0000 && m == ClusterSize(total)
    requires first * m <= total - FAT_OFFSET < (first + 1) * m
    requires 128 * whole - 128 < first + 2 <= 128 * whole && fat == whole % 0x1_0000_0000
    requires FAT_OFFSET + fat <= heap < FAT_OFFSET + fat + m && heap % m == 0
    requires count * m <= total - heap < (count + 1) * m
    ensures count <= 0xFFFF_FFF5 <==> total <= LARGEST
    ensures total <= LARGEST ==> total > heap && count >= 128 && heap < 0x1_0000_0000 && 128 * fat >= count + 2
    ensures total <= LARGEST ==> (m == 256 && count > 4094 * 0x10_0000 <==> total >= CROWDED)
    ensures total > LARGEST ==> total > heap
    ensures m < 256 ==> count < 0x20_0000
  {
    FatReaches(total, m, first, whole, fat, heap, count);
    if total > 0xFF_0000_0000 {
      LastAccepted(total, first, whole, fat, heap, count);
    }
    if total <= 0xFF_0000_0000 {
      BelowCrowded(total, m, heap, count);
    }
  }

  lemma BelowCrowded(total: int, m: int, heap: int, count: int)
    requires 2048 <= total <= 0xFF_0000_0000 && m == ClusterSize(total) && FAT_OFFSET <= heap &&
             count * m <= total - heap
    ensures count <= 4094 * 0x10_0000 && (m < 256 ==> count < 0x20_0000)
  {
    if m == 8 {
    } else if m == 64 {
    } else {
    }
  }

  lemma Floor(x: int, m: int)
    requires m in {8, 64, 256}
    ensures x / m * m <= x < (x / m + 1) * m
  {
  }

  lemma Ceiling(x: int, m: int)
    requires m in {8, 64, 256}
    ensures x <= RoundUp(x, m) < x + m && RoundUp(x, m) % m == 0
  {
    Floor(x + m - 1, m);
  }

  lemma FatBounds(clusters: int)
    requires clusters >= 0
    ensures 128 * FatSectors(clusters) - 128 < clusters + 2 <= 128 * FatSectors(clusters)
  {
  }

  // Enough clusters for a bit each, and not one too many.
  lemma BitmapBounds(count: int, m: int)
    requires count >= 0 && m in {8, 64, 256}
    ensures var n := CeilDiv(CeilDiv(count, 8), SECTOR * m);
            n * m * SECTOR * 8 >= count && (count > 0 ==> n >= 1 && (n - 1) * m * SECTOR * 8 < count)
  {
    if m == 8 {
    } else if m == 64 {
    } else {
    }
  }

  // A FAT length that fits 32 bits covers the heap; one that wraps leaves more
  // clusters than exFAT allows.
  lemma FatReaches(total: int, m: int, first: int, whole: int, fat: int, heap: int, count: int)
    requires 2048 <= total < 0x80_0000_0000_0000 && m == ClusterSize(total)
    requires first * m <= total - FAT_OFFSET < (first + 1) * m
    requires 128 * whole - 128 < first + 2 <= 128 * whole && fat == whole % 0x1_0000_0000
    requires FAT_OFFSET + fat <= heap < FAT_OFFSET + fat + m
    requires count * m <= total - heap < (count + 1) * m
    ensures count <= 0xFFFF_FFF5 ==> fat == whole && heap < 0x1_0000_0000 && 128 * fat >= count + 2
    ensures total <= 0xFF_0000_0000 ==> total > heap && 128 <= count <= 0xFFFF_FFF5
  {
    if m == 8 {
    } else if m == 64 {
    } else {
    }
  }

  // Near the largest sizes the heap stands still, so the division is exact there.
  lemma LastAccepted(total: int, first: int, whole: int, fat: int, heap: int, count: int)
    requires 0xFF_0000_0000 < total < 0x80_0000_0000_0000
    requires first * 256 <= total - FAT_OFFSET < (first + 1) * 256
    requires 128 * whole - 128 < first + 2 <= 128 * whole && fat == whole % 0x1_0000_0000
    requires FAT_OFFSET + fat <= heap < FAT_OFFSET + fat + 256 && heap % 256 == 0
    requires count * 256 <= total - heap < (count + 1) * 256
    ensures count <= 0xFFFF_FFF5 <==> total <= LARGEST
    ensures count <= 0xFFFF_FFF5 ==> (count <= 4094 * 0x10_0000 <==> total < CROWDED)
  {
    if LARGEST - 600 <= total <= LARGEST + 600 {
      assert whole == 33555456 && heap == 33555712;
    }
    if CROWDED - 600 <= total <= CROWDED + 600 {
      assert whole == 33539072 && heap == 33539328;
    }
  }

  /** The bits the formatter sets fit the bitmap's first sector exactly when the heap
      has at most 4094 * 2^20 clusters. */
  lemma MarksFit(count: int, m: int, bitmap: int)
    requires m in {8, 64, 256} && 0 <= count
    requires bitmap * m * SECTOR * 8 >= count && (count > 0 ==> bitmap >= 1 && (bitmap - 1) * m * SECTOR * 8 < count)
    requires bitmap == CeilDiv(CeilDiv(count, 8), SECTOR * m)
    ensures m == 256 ==> (bitmap + 2 <= SECTOR * 8 <==> count <= 4094 * 0x10_0000)
    ensures m < 256 && count < 0x20_0000 ==> bitmap + 2 <= SECTOR * 8
  {
    if m == 8 {
    } else if m == 64 {
    } else {
    }
  }

  lemma BitmapSmall(m: int, count: int, bitmap: int)
    requires m in {8, 64, 256} && count >= 128
    requires (bitmap - 1) * m * SECTOR * 8 < count
    ensures bitmap + 2 <= count
  {
    if m == 8 {
    } else if m == 64 {
    } else {
    }
  }

  /** Among the devices accepted, the formatter's marks fit the bitmap's first sector
      exactly below 0xFFE1FFC600 sectors; from there on it writes bits past its buffer. */
  lemma BitmapFitsSector(total: int)
    requires 2048 <= total < 0x80_0000_0000_0000
    ensures var l := Regions(total, ClusterSize(total));
            && (Accepted(l) && l.bitmap + 2 <= SECTOR * 8 <==> total < CROWDED)
            && (Accepted(l) && l.bitmap + 2 > SECTOR * 8 <==> CROWDED <= total <= LARGEST)
  {
    RegionsSound(total);
  }

  // ------------------------------------------------------------------
  // The allocation chain
  // ------------------------------------------------------------------

  const PER_SECTOR: int := 128

  /** The entry written for cluster c: media, reserved, the bitmap's chain from 2,
      then one-cluster chains for the up-case table and the root directory. */
  function Entry(c: nat, bitmap: nat): uint32 {
    if c == 0 then 0xFFFF_FFF8
    else if 2 <= c <= bitmap && c + 1 < 0x1_0000_0000 then (c + 1) as uint32
    else END
  }

  // The sector buffer is flushed when full and after the last entry; the rest of the
  // last sector is zero.
  method WriteFat(fat: array<uint32>, bitmap: nat)
    requires bitmap < 0xFFFF_FFF0 && bitmap + 4 <= fat.Length && fat.Length % PER_SECTOR == 0
    modifies fat
    ensures Written(fat[..], old(fat[..]), bitmap)
  {
    var sec := new uint32[PER_SECTOR](_ => 0);
    var n := bitmap + 4;
    var c := 0;
    while c < n
      invariant c <= n
      invariant c < n ==> Pending(fat[..], old(fat[..]), sec[..], c / PER_SECTOR * PER_SECTOR, c, bitmap)
      invariant c == n ==> Written(fat[..], old(fat[..]), bitmap)
    {
      InSector(c / PER_SECTOR * PER_SECTOR, c);
      PutEntry(fat, sec, c / PER_SECTOR * PER_SECTOR, c, bitmap, old(fat[..]));
      c := c + 1;
    }
  }

  // One pass of the loop.
  method PutEntry(fat: array<uint32>, sec: array<uint32>, base: nat, c: nat, bitmap: nat, ghost before: seq<uint32>)
    requires fat != sec && base % PER_SECTOR == 0 && base <= c < base + PER_SECTOR && c < bitmap + 4 <= fat.Length &&
             fat.Length % PER_SECTOR == 0
    requires sec.Length == PER_SECTOR && Pending(fat[..], before, sec[..], base, c, bitmap)
    modifies fat, sec
    ensures c + 1 < bitmap + 4 ==>
              Pending(fat[..], before, sec[..], if c + 1 == base + PER_SECTOR then c + 1 else base, c + 1, bitmap)
    ensures c + 1 == bitmap + 4 ==> Written(fat[..], before, bitmap)
  {
    InSector(base, c);
    sec[c % PER_SECTOR] := Entry(c, bitmap);
    Buffered(fat[..], before, old(sec[..]), sec[..], base, c, bitmap);
    if (c + 1) % PER_SECTOR == 0 || c + 1 == bitmap + 4 {
      ghost var full := sec[..];
      ghost var was := fat[..];
      Flush(fat, sec, base);
      Clear(sec);
      Flushed(was, fat[..], before, full, sec[..], base, c + 1, bitmap);
    }
  }

  lemma Flushed(was: seq<uint32>, fat: seq<uint32>, before: seq<uint32>, full: seq<uint32>, sec: seq<uint32>,
                base: nat, c: nat, bitmap: nat)
    requires base % PER_SECTOR == 0 && Pending(was, before, full, base, c, bitmap) && base < c <= bitmap + 4 <= |fat|
    requires |fat| == |was| && |fat| % PER_SECTOR == 0 && |sec| == PER_SECTOR
    requires forall k :: 0 <= k < |fat| ==> fat[k] == if base <= k < base + PER_SECTOR then full[k - base] else was[k]
    requires forall k :: 0 <= k < PER_SECTOR ==> sec[k] == 0
    ensures c == bitmap + 4 ==> Written(fat, before, bitmap)
    ensures c == base + PER_SECTOR && c < bitmap + 4 ==> Pending(fat, before, sec, c, c, bitmap)
  {
    if c == bitmap + 4 {
      forall k: nat | bitmap + 4 <= k < |fat|
        ensures fat[k] == if k / PER_SECTOR == (bitmap + 3) / PER_SECTOR then 0 else before[k]
      {
        if k < base + PER_SECTOR {
          assert full[k - base] == 0;
        }
      }
    }
    if c == base + PER_SECTOR && c < bitmap + 4 {
      assert c + PER_SECTOR <= |fat|;
      forall k: nat | k < c
        ensures fat[k] == Entry(k, bitmap)
      {
        if k >= base {
          assert full[k - base] == Entry(base + (k - base), bitmap);
        }
      }
    }
  }

  lemma InSector(base: nat, c: nat)
    requires base % PER_SECTOR == 0 && base <= c < base + PER_SECTOR
    ensures c == base + c % PER_SECTOR && c / PER_SECTOR * PER_SECTOR == base
    ensures (c + 1) % PER_SECTOR == 0 <==> c + 1 == base + PER_SECTOR
    ensures (c + 1) / PER_SECTOR * PER_SECTOR == if c + 1 == base + PER_SECTOR then c + 1 else base
  {
  }

  lemma Buffered(fat: seq<uint32>, before: seq<uint32>, held: seq<uint32>, sec: seq<uint32>, base: nat, c: nat,
                 bitmap: nat)
    requires c == base + c % PER_SECTOR && Pending(fat, before, held, base, c, bitmap)
    requires sec == held[c % PER_SECTOR := Entry(c, bitmap)]
    ensures Pending(fat, before, sec, base, c + 1, bitmap)
  {
  }

  /** Everything before `base` is on disk, entries base..c are in the buffer. */
  ghost predicate Pending(fat: seq<uint32>, before: seq<uint32>, sec: seq<uint32>, base: nat, c: nat, bitmap: nat) {
    && |fat| == |before| && |sec| == PER_SECTOR && base <= c <= base + PER_SECTOR <= |fat|
    && (forall k :: 0 <= k < base ==> fat[k] == Entry(k, bitmap))
    && (forall k :: base <= k < |fat| ==> fat[k] == before[k])
    && (forall i :: 0 <= i < PER_SECTOR ==> sec[i] == if i < c - base then Entry(base + i, bitmap) else 0)
  }

  ghost predicate Written(fat: seq<uint32>, before: seq<uint32>, bitmap: nat) {
    && |fat| == |before| && bitmap + 4 <= |fat|
    && (forall c: nat :: c < bitmap + 4 ==> fat[c] == Entry(c, bitmap))
    && (forall c: nat :: bitmap + 4 <= c < |fat| ==>
          fat[c] == if c / PER_SECTOR == (bitmap + 3) / PER_SECTOR then 0 else before[c])
  }

  method Clear(sec: array<uint32>)
    modifies sec
    ensures forall i :: 0 <= i < sec.Length ==> sec[i] == 0
  {
    for i := 0 to sec.Length
      invariant forall k :: 0 <= k < i ==> sec[k] == 0
    {
      sec[i] := 0;
    }
  }

  method Flush(fat: array<uint32>, sec: array<uint32>, at: nat)
    requires sec.Length == PER_SECTOR && at + PER_SECTOR <= fat.Length && sec != fat
    modifies fat
    ensures forall k :: 0 <= k < fat.Length ==> fat[k] == if at <= k < at + PER_SECTOR then sec[k - at] else old(fat[k])
  {
    for i := 0 to PER_SECTOR
      invariant forall k :: 0 <= k < fat.Length ==> fat[k] == if at <= k < at + i then sec[k - at] else old(fat[k])
    {
      fat[at + i] := sec[i];
    }
  }

  /** Clusters from c until an end mark, at most n of them. */
  function Chain(fat: seq<uint32>, c: nat, n: nat): seq<nat>
    decreases n
  {
    if n == 0 || c >= |fat| then []
    else if fat[c] == END then [c]
    else [c] + Chain(fat, fat[c] as nat, n - 1)
  }

  /** The bitmap's chain visits exactly the clusters 2 .. bitmap + 1, in order, and ends. */
  lemma {:induction false} ChainVisits(fat: seq<uint32>, c: nat, bitmap: nat, n: nat)
    requires 2 <= c <= bitmap + 1 && bitmap + 4 <= |fat| && bitmap < 0xFFFF_FFF0 && n >= bitmap + 2 - c
    requires forall k: nat :: k < bitmap + 4 ==> fat[k] == Entry(k, bitmap)
    ensures Chain(fat, c, n) == seq(bitmap + 2 - c, i => c + i)
    decreases bitmap + 1 - c
  {
    if c <= bitmap {
      ChainVisits(fat, c + 1, bitmap, n - 1);
      assert seq(bitmap + 2 - c, i => c + i) == [c] + seq(bitmap + 1 - c, i => c + 1 + i);
    } else {
      assert seq(1, i => c + i) == [c];
    }
  }

  // ------------------------------------------------------------------
  // The allocation bitmap
  // ------------------------------------------------------------------

  /** The bitmap on disk, zeroed past its first sector: its set bits are exactly the
      clusters of bitmap, up-case table and root, as far as one sector goes.  The source's
      marks stay inside its sector buffer exactly when that is all of them; those beyond
      are left out here. */
  method WriteBitmap(bytes: nat, bitmap: nat) returns (image: array<bv8>, inside: bool)
    ensures inside <==> bitmap + 2 <= SECTOR * 8
    ensures image.Length == if bytes > SECTOR then bytes else SECTOR
    ensures forall b: nat :: b < 8 * image.Length ==> (IsSet(image[..], b) <==> b < Marks(bitmap))
  {
    inside := bitmap + 2 <= SECTOR * 8;
    var size := if bytes > SECTOR then bytes else SECTOR;
    image := NewBlock(size);
    ghost var zero := image[..];
    var sec := NewBlock(SECTOR);
    ghost var blank := sec[..];
    assert forall b: nat :: b < 8 * SECTOR ==> !IsSet(blank, b);
    SetRange(sec, 0, Marks(bitmap));
    ghost var marks := sec[..];
    for i := 0 to SECTOR
      invariant sec[..] == marks
      invariant forall k :: 0 <= k < size ==> image[k] == if k < i then marks[k] else zero[k]
    {
      image[i] := sec[i];
    }
    Overlaid(image[..], marks, zero, Marks(bitmap));
  }

  function Marks(bitmap: nat): (n: nat) {
    if bitmap + 2 <= SECTOR * 8 then bitmap + 2 else SECTOR * 8
  }

  lemma Overlaid(image: seq<bv8>, marks: seq<bv8>, zero: seq<bv8>, n: nat)
    requires |marks| == SECTOR <= |image| == |zero|
    requires forall k :: 0 <= k < |image| ==> image[k] == if k < SECTOR then marks[k] else zero[k]
    requires forall b: nat :: b < 8 * SECTOR ==> (IsSet(marks, b) <==> b < n)
    requires forall b: nat :: b < 8 * |zero| ==> !IsSet(zero, b)
    requires n <= 8 * SECTOR
    ensures forall b: nat :: b < 8 * |image| ==> (IsSet(image, b) <==> b < n)
  {
    forall b: nat | b < 8 * |image|
      ensures IsSet(image, b) <==> b < n
    {
      if b / 8 < SECTOR {
        assert IsSet(marks, b) <==> b < n;
      } else {
        assert !IsSet(zero, b);
      }
    }
  }

  lemma SoundFacts(plan: Layout, total: int, length: int)
    requires Sound(plan, total) && plan.cluster == ClusterSize(total) && length == plan.fat * PER_SECTOR
    ensures 1 <= plan.bitmap && plan.bitmap + 4 <= length && plan.bitmap + 2 <= plan.count <= 0xFFFF_FFF5
    ensures length % PER_SECTOR == 0
    ensures plan.bitmap + 2 <= SECTOR * 8 <==> plan.count <= 4094 * 0x10_0000
  {
    if plan.cluster == 8 {
    } else if plan.cluster == 64 {
    } else {
    }
  }

  /** The tables of a planned volume: the chain from cluster 2 is the bitmap's clusters,
      the up-case table and the root are chains of one cluster, and with at most
      4094 * 2^20 clusters (on devices below 0xFFE1FFC600 sectors, by BitmapFitsSector) the
      bitmap marks just the clusters of those three and has a bit for every cluster. */
  method WriteTables(plan: Layout, total: uint64, fat: array<uint32>) returns (image: array<bv8>, inside: bool)
    requires Sound(plan, total as int) && plan.cluster == ClusterSize(total as int)
    requires fat.Length == plan.fat * PER_SECTOR
    modifies fat
    ensures Chain(fat[..], 2, fat.Length) == seq(plan.bitmap, i => 2 + i)
    ensures Chain(fat[..], plan.bitmap + 2, fat.Length) == [plan.bitmap + 2]
    ensures Chain(fat[..], plan.bitmap + 3, fat.Length) == [plan.bitmap + 3]
    ensures inside <==> plan.count <= 4094 * 0x10_0000
    ensures 8 * image.Length >= plan.count
    ensures inside ==> forall b: nat :: b < 8 * image.Length ==> (IsSet(image[..], b) <==> b < plan.bitmap + 2)
  {
    SoundFacts(plan, total as int, fat.Length);
    WriteChains(fat, plan.bitmap);
    image, inside := WriteMarks(plan.count, plan.bitmap);
  }

  method WriteChains(fat: array<uint32>, bitmap: nat)
    requires 1 <= bitmap < 0xFFFF_FFF0 && bitmap + 4 <= fat.Length && fat.Length % PER_SECTOR == 0
    modifies fat
    ensures Chain(fat[..], 2, fat.Length) == seq(bitmap, i => 2 + i)
    ensures Chain(fat[..], bitmap + 2, fat.Length) == [bitmap + 2]
    ensures Chain(fat[..], bitmap + 3, fat.Length) == [bitmap + 3]
  {
    WriteFat(fat, bitmap);
    ChainVisits(fat[..], 2, bitmap, fat.Length);
  }

  method WriteMarks(count: nat, bitmap: nat) returns (image: array<bv8>, inside: bool)
    ensures inside <==> bitmap + 2 <= SECTOR * 8
    ensures 8 * image.Length >= count
    ensures inside ==> forall b: nat :: b < 8 * image.Length ==> (IsSet(image[..], b) <==> b < bitmap + 2)
  {
    image, inside := WriteBitmap((count + 7) / 8, bitmap);
  }
}
