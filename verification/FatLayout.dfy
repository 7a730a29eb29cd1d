// The layout of a FAT volume.  Unsigned 64-bit arithmetic is checked by the
// verifier, so nothing here wraps.
module FatLayout {
  import opened Arithmetic
  import opened Words

  /** FATs of f sectors have an entry for every cluster left, and two more. */
  predicate Holds(f: int, room: int, entries: int, cluster: int)
    requires cluster > 0
  {
    f * entries >= (room - 2 * f) / cluster + 2
  }

  lemma DivMonotone(x: int, y: int, d: int)
    requires x <= y && d > 0
    ensures x / d <= y / d
  {
    if x / d > y / d {
      TimesMonotone(y / d + 1, x / d, d);
    }
  }

  lemma TimesMonotone(x: int, y: int, d: int)
    requires x <= y && d >= 0
    ensures x * d <= y * d
  {
  }

  ghost predicate IsLeast(f: int, room: int, entries: int, cluster: int)
    requires cluster > 0
  {
    forall g :: 1 <= g < f ==> !Holds(g, room, entries, cluster)
  }

  /** A larger FAT holds whenever a smaller one does. */
  lemma HoldsMonotone(f: int, g: int, room: int, entries: int, cluster: int)
    requires f <= g && entries >= 0 && cluster > 0 && Holds(f, room, entries, cluster)
    ensures Holds(g, room, entries, cluster)
  {
    TimesMonotone(f, g, entries);
    DivMonotone(room - 2 * g, room - 2 * f, cluster);
  }

  // Where the search starts: FATs for the clusters there would be without FATs.
  function UpperBound(room: int, entries: int, cluster: int): int
    requires entries > 0 && cluster > 0
  {
    (room / cluster + 2 + entries - 1) / entries
  }

  lemma UpperBoundHolds(room: int, entries: int, cluster: int)
    requires entries > 0 && cluster > 0 && room >= 0
    ensures UpperBound(room, entries, cluster) >= 1
    ensures Holds(UpperBound(room, entries, cluster), room, entries, cluster)
  {
    var n, h := room / cluster + 2, UpperBound(room, entries, cluster);
    var r := (n + entries - 1) % entries;
    assert h * entries + r == n + entries - 1;
    assert n >= 2;
    if h < 1 {
      TimesMonotone(h, 0, entries);
    }
    DivMonotone(room - 2 * h, room, cluster);
  }

  method Covers(room: uint64, mid: uint64, entries: uint64, cluster: uint64) returns (enough: bool)
    requires room < 0x1_0000_0000 && 2 * mid as int <= room as int && entries <= 256 && 0 < cluster
    ensures enough <==> Holds(mid as int, room as int, entries as int, cluster as int)
  {
    ProductFits(mid as int, entries as int);
    DivMonotone(0, (room - 2 * mid) as int, cluster as int);
    QuotientAtMost((room - 2 * mid) as int, cluster as int);
    var clusters := (room - 2 * mid) / cluster;
    enough := mid * entries >= clusters + 2;
  }

  lemma QuotientAtMost(x: int, d: int)
    requires x >= 0 && d > 0
    ensures 0 <= x / d <= x
  {
    var q := x / d;
    assert q * d <= x;
    if q > 0 {
      TimesMonotone(1, d, q);
    }
  }

  /** The least number of FAT sectors, from 1, that holds clusters + 2 entries. */
  method FatSize(sectors: uint64, reserved: uint64, entries: uint64, cluster: uint64) returns (f: uint64)
    requires reserved <= sectors < 0x1_0000_0000 && 0 < entries <= 256 && 0 < cluster
    requires 2 * UpperBound(sectors as int - reserved as int, entries as int, cluster as int) <=
             sectors as int - reserved as int
    ensures 1 <= f as int <= UpperBound(sectors as int - reserved as int, entries as int, cluster as int)
    ensures Holds(f as int, sectors as int - reserved as int, entries as int, cluster as int)
    ensures IsLeast(f as int, sectors as int - reserved as int, entries as int, cluster as int)
  {
    ghost var room, e, c := sectors as int - reserved as int, entries as int, cluster as int;
    UpperBoundHolds(room, e, c);
    QuotientAtMost(room, c);
    var low: uint64 := 1;
    var high := ((sectors - reserved) / cluster + 2 + entries - 1) / entries;
    assert high as int == UpperBound(room, e, c);
    while low < high
      invariant 1 <= low <= high && high as int <= UpperBound(room, e, c)
      invariant Holds(high as int, room, e, c)
      invariant IsLeast(low as int, room, e, c)
    {
      var mid := low + (high - low) / 2;
      var enough := Covers(sectors - reserved, mid, entries, cluster);
      if enough {
        high := mid;
      } else {
        NoneUpTo(mid as int, room, e, c);
        low := mid + 1;
      }
    }
    f := low;
  }

  lemma NoneUpTo(f: int, room: int, entries: int, cluster: int)
    requires cluster > 0 && entries >= 0 && !Holds(f, room, entries, cluster)
    ensures IsLeast(f + 1, room, entries, cluster)
  {
    forall g | 1 <= g < f + 1
      ensures !Holds(g, room, entries, cluster)
    {
      if Holds(g, room, entries, cluster) {
        HoldsMonotone(g, f, room, entries, cluster);
      }
    }
  }

  lemma ProductFits(mid: int, e: int)
    requires 0 <= mid < 0x1_0000_0000 && 0 <= e <= 256
    ensures 0 <= mid * e < 0x100_0000_0000
  {
    TimesMonotone(0, mid, e);
    TimesMonotone(e, 256, mid);
  }

  // ------------------------------------------------------------------
  // The volume
  // ------------------------------------------------------------------

  const MIN_SECTORS: int := 36 + 2 + 4085 * 8
  const FAT16_LIMIT: int := 65525
  const FAT32_LIMIT: int := 0x0FFFFFEE

  datatype Volume = Volume(fat32: bool, cluster: int, reserved: int, rootSectors: int, fat: int, clusters: int)

  function DataStart(v: Volume): int {
    v.reserved + 2 * v.fat + v.rootSectors
  }

  function EntriesPerSector(v: Volume): int {
    if v.fat32 then 128 else 256
  }

  /** What a driver relies on: both FATs cover every cluster, the regions follow each
      other inside the device, and the cluster count alone tells the FAT type. */
  predicate Sound(v: Volume, total: int) {
    && v.cluster > 0 && v.fat >= 1
    && v.fat * EntriesPerSector(v) >= v.clusters + 2
    && DataStart(v) + v.clusters * v.cluster <= total
    && (if v.fat32 then v.reserved == 32 && v.rootSectors == 0 && FAT16_LIMIT <= v.clusters <= FAT32_LIMIT
        else v.reserved == 4 && v.rootSectors == 32 && 4085 <= v.clusters < FAT16_LIMIT && v.fat <= 65535)
  }

  /** Less than a cluster is left over at the end. */
  predicate NoWaste(v: Volume, total: int) {
    total < DataStart(v) + (v.clusters + 1) * v.cluster
  }

  // Room for the search on every accepted device.
  lemma SearchFits(total: int, reserved: int, entries: int, cluster: int)
    requires MIN_SECTORS <= total < 0x1_0000_0000 && (reserved == 32 || reserved == 36)
    requires (entries == 128 || entries == 256) && (cluster == 8 || cluster == 16)
    ensures 2 * UpperBound(total - reserved, entries, cluster) <= total - reserved
  {
    assert (total - reserved) / cluster <= (total - reserved) / 8;
  }

  // With 16 sectors per cluster the count is below the FAT32 limit.
  lemma SixteenSuffice(total: int, f: int)
    requires MIN_SECTORS <= total < 0x1_0000_0000 && Holds(f, total - 32, 128, 16) && f >= 1
    ensures (total - 32 - 2 * f) / 16 <= FAT32_LIMIT
  {
  }

  /** With clusters of 8 sectors, and the least FATs that hold, there are more than FAT32 can
      count. */
  ghost predicate TooMany(total: int) {
    exists f :: LeastFat(f, total, 8) && (total - 32 - 2 * f) / 8 > FAT32_LIMIT
  }

  ghost predicate LeastFat(f: int, total: int, cluster: int)
    requires cluster > 0
  {
    f >= 1 && Holds(f, total - 32, 128, cluster) && IsLeast(f, total - 32, 128, cluster)
  }

  lemma NotTooMany(total: int, f: int)
    requires LeastFat(f, total, 8) && (total - 32 - 2 * f) / 8 <= FAT32_LIMIT
    ensures !TooMany(total)
  {
  }

  /** Picks FAT16 or FAT32 and lays the volume out.  The source's own limit is 30 sectors
      too low: its FATs then leave fewer than 4085 clusters, and nothing is laid out. */
  method PlanVolume(total: uint64) returns (plan: Option<Volume>)
    ensures plan.Some? ==> Sound(plan.value, total as int) && NoWaste(plan.value, total as int)
    ensures plan.Some? ==> plan.value.cluster == if TooMany(total as int) then 16 else 8
    ensures plan.Some? && plan.value.fat32 ==> LeastFat(plan.value.fat, total as int, plan.value.cluster)
    ensures plan.Some? <==> MIN_SECTORS + 30 <= total as int < 0x1_0000_0000
  {
    if total > 0xFFFF_FFFF || total < 36 + 2 + 4085 * 8 {
      return None;
    }
    var cluster, fat, clusters := SizeFat32(total);
    if clusters >= 65525 {
      return Some(Volume(true, cluster as int, 32, 0, fat as int, clusters as int));
    }
    plan := PlanFat16(total, fat);
  }

  // The cluster size doubles until the FAT32 cluster count is legal.
  method SizeFat32(total: uint64) returns (cluster: uint64, fat: uint64, clusters: uint64)
    requires MIN_SECTORS <= total as int < 0x1_0000_0000
    ensures cluster == 8 || cluster == 16
    ensures cluster == 16 ==> clusters >= 65525
    ensures cluster == 16 <==> TooMany(total as int)
    ensures fat >= 1 && Holds(fat as int, total as int - 32, 128, cluster as int)
    ensures 2 * fat as int <= total as int - 32
    ensures IsLeast(fat as int, total as int - 32, 128, cluster as int)
    ensures clusters as int == (total as int - 32 - 2 * fat as int) / cluster as int <= FAT32_LIMIT
  {
    cluster := 8;
    while true
      invariant cluster == 8 || (cluster == 16 && total >= 0x8000_0000 && TooMany(total as int))
      decreases 16 - cluster as int
    {
      SearchFits(total as int, 32, 128, cluster as int);
      fat := FatSize(total, 32, 128, cluster);
      var dataStart := 32 + 2 * fat;
      clusters := (total - dataStart) / cluster;
      assert LeastFat(fat as int, total as int, cluster as int);
      if clusters <= 0x0FFFFFEE {
        if cluster == 8 {
          NotTooMany(total as int, fat as int);
        }
        return;
      }
      if cluster == 16 {
        SixteenSuffice(total as int, fat as int);
      }
      cluster := cluster * 2;
    }
  }

  method PlanFat16(total: uint64, fat32: uint64) returns (plan: Option<Volume>)
    requires MIN_SECTORS <= total as int < 0x1_0000_0000
    requires fat32 >= 1 && 2 * fat32 as int <= total as int - 32
    requires (total as int - 32 - 2 * fat32 as int) / 8 < FAT16_LIMIT
    requires IsLeast(fat32 as int, total as int - 32, 128, 8)
    ensures plan.Some? ==> Sound(plan.value, total as int) && NoWaste(plan.value, total as int)
    ensures plan.Some? ==> plan.value.cluster == 8 && !plan.value.fat32
    ensures plan.Some? <==> MIN_SECTORS + 30 <= total as int
  {
    SearchFits(total as int, 36, 256, 8);
    var fat := FatSize(total, 36, 256, 8);
    var dataStart := 36 + 2 * fat;
    var clusters := (total - dataStart) / 8;
    FewFatSectors(total as int, fat32 as int);
    if clusters >= 65525 {
      fat := (total - 36 - 65525 * 8) / 2 + 1;
      dataStart := 36 + 2 * fat;
      clusters := (total - dataStart) / 8;
    }
    if clusters < 4085 || fat > 65535 {
      return None;
    }
    plan := Some(Volume(false, 8, 4, 32, fat as int, clusters as int));
  }

  // A device with fewer than 65525 clusters under FAT32 is small.
  lemma FewFatSectors(total: int, fat32: int)
    requires MIN_SECTORS <= total && fat32 >= 1 && (total - 32 - 2 * fat32) / 8 < FAT16_LIMIT
    requires IsLeast(fat32, total - 32, 128, 8)
    ensures fat32 <= 513 && total <= 32 + 2 * 513 + 65525 * 8
  {
    if fat32 > 1 {
      assert !Holds(fat32 - 1, total - 32, 128, 8);
    }
  }
}
