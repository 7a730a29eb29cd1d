// Disks past 2^32 sectors: the backup's addresses are kept in 32 bits, and may come
// down on the primary table.
module LabelWrap {
  import opened Limbs
  import opened Bytes
  import opened Words
  import opened PartitionTable
  import opened DiskLabel
  import opened LabelScan

  /** A disk of n sectors carries its label: whatever the label and the device before,
      a scan of the written image reports that label. */
  ghost predicate RoundTrips(n: Lba)
    requires n >= 2048
  {
    forall before: seq<byte>, t: Table, uniques: seq<Guid>, area: seq<byte>, crc: seq<byte> -> uint32, size: Lba,
        was: Table ::
      Writable(n, before, t, uniques, area) ==> Carried(before, t, area, crc, size, was)
  }

  ghost predicate Carried(before: seq<byte>, t: Table, area: seq<byte>, crc: seq<byte> -> uint32, size: Lba, was: Table)
    requires t.sectors >= 2048 && |area| == AREA
  {
    ScanOf(GptImage(before, t, area, crc), size, was) == Scanned(true, Expected(t))
  }

  ghost predicate Writable(n: Lba, before: seq<byte>, t: Table, uniques: seq<Guid>, area: seq<byte>) {
    && t.gpt && t.sectors == n && |before| >= 34 * SECTOR && |area| == AREA
    && |uniques| == |t.parts| <= MAX_PARTS && AreEntries(area, t.parts, uniques)
  }

  function Expected(t: Table): Table {
    Table(true, t.sectors, Rereads(t.parts), t.guid, Zeros(446))
  }

  /** A disk of n sectors carries every label exactly when the backup stays off the first
      34 sectors, or puts the same entries where they already are.  The first sizes that
      fail are 2^32 + 1 to 2^32 + 34 and 2^32 + 36 to 2^32 + 66. */
  lemma RoundTripSizes(n: Lba)
    requires n >= 2048
    ensures RoundTrips(n) <==> BackupHarmless(n)
    ensures RoundTrips(n) <==> n % HALF == 0 || n % HALF == 35 || n % HALF > 66
  {
    HarmlessSizes(n);
    if BackupHarmless(n) {
      HarmlessSizesWork(n);
    }
    if !BackupHarmless(n) {
      OtherSizesFail(n);
    }
  }

  lemma HarmlessSizes(n: Lba)
    requires n >= 2048
    ensures BackupHarmless(n) <==> n % HALF == 0 || n % HALF == 35 || n % HALF > 66
  {
    Wrapped(n, 33);
    Wrapped(n, 1);
  }

  lemma OtherSizesFail(n: Lba)
    requires n >= 2048 && !BackupHarmless(n)
    ensures !RoundTrips(n)
  {
    var t, uniques, area := FailingLabel(n);
    var before, crc := Zeros(34 * SECTOR), (s: seq<byte>) => 0 as uint32;
    LabelLost(before, t, area, crc, 0, t);
    assert Writable(n, before, t, uniques, area);
  }

  lemma HarmlessSizesWork(n: Lba)
    requires n >= 2048 && BackupHarmless(n)
    ensures RoundTrips(n)
  {
    forall before: seq<byte>, t: Table, uniques: seq<Guid>, area: seq<byte>, crc: seq<byte> -> uint32, size: Lba,
        was: Table
      | Writable(n, before, t, uniques, area)
      ensures Carried(before, t, area, crc, size, was)
    {
      GptRoundTrip(before, t, uniques, area, crc, size, was);
    }
  }

  // ------------------------------------------------------------------
  // The sizes that fail
  // ------------------------------------------------------------------

  /** Where the backup header and entries fall on a size that fails. */
  lemma WrappedPlaces(n: Lba)
    requires n >= 2048 && !BackupHarmless(n)
    ensures var h, e := BackupHeader(n), BackupEntries(n);
            (h < 32 && e >= 34) || (e <= 33 && h == e + 32 && e != 2)
  {
    Wrapped(n, 33);
    Wrapped(n, 1);
  }

  /** A label each failing size does not carry: one with a partition where the entries would
      be read twice, an empty one elsewhere. */
  lemma FailingLabel(n: Lba) returns (t: Table, uniques: seq<Guid>, area: seq<byte>)
    requires n >= 2048 && !BackupHarmless(n)
    ensures Writable(n, Zeros(34 * SECTOR), t, uniques, area)
    ensures if 3 <= BackupEntries(n) <= 33 then !SlotFree(area, 0) && |Rereads(t.parts)| == 1
            else t.parts == [] && area == Zeros(AREA)
  {
    if 3 <= BackupEntries(n) <= 33 {
      t, uniques, area := OnePart(n);
    } else {
      t, uniques, area := NoParts(n);
    }
  }

  /** Whatever the device held and whatever is known before the scan, it is lost. */
  lemma LabelLost(before: seq<byte>, t: Table, area: seq<byte>, crc: seq<byte> -> uint32, size: Lba, was: Table)
    requires t.sectors >= 2048 && !BackupHarmless(t.sectors) && |area| == AREA && |before| >= 34 * SECTOR
    requires if 3 <= BackupEntries(t.sectors) <= 33 then !SlotFree(area, 0) && |Rereads(t.parts)| == 1
             else t.parts == [] && area == Zeros(AREA)
    ensures !Carried(before, t, area, crc, size, was)
  {
    if 3 <= BackupEntries(t.sectors) <= 33 {
      EntriesTwice(before, t, area, crc, size, was);
    } else {
      EmptyLabelLost(before, t, area, crc, size, was);
    }
  }

  lemma NoParts(n: Lba) returns (t: Table, uniques: seq<Guid>, area: seq<byte>)
    ensures t.gpt && t.sectors == n && t.parts == [] && uniques == [] && area == Zeros(AREA) && AreEntries(area, [], [])
  {
    t, uniques, area := Table(true, n, [], Zeros(16), Zeros(446)), [], Zeros(AREA);
    BlankSlots(area);
  }

  // One partition of a type that is not zero.
  lemma OnePart(n: Lba) returns (t: Table, uniques: seq<Guid>, area: seq<byte>)
    ensures t.gpt && t.sectors == n && |t.parts| == |uniques| == 1 && |area| == AREA &&
            AreEntries(area, t.parts, uniques)
    ensures !SlotFree(area, 0) && |Rereads(t.parts)| == 1
  {
    var p, unique := Part(1, 2048, 2048, 0, Zeros(16)[0 := 1], []), Zeros(16);
    assert p.guid[0] == 1 && p.guid[0] in p.guid;
    t, uniques := Table(true, n, [p], Zeros(16), Zeros(446)), [unique];
    area := OneEntry(p, unique);
    assert |UsedParts(t.parts, 0)| == 1 + |UsedParts(t.parts, 1)|;
  }

  lemma OneEntry(p: Part, unique: Guid) returns (area: seq<byte>)
    requires !IsZero(p.guid)
    ensures |area| == AREA && AreEntries(area, [p], [unique]) && !SlotFree(area, 0)
  {
    EntryFields(p, unique);
    area := FirstSlotPut(EntryBytes(p, unique), Slots([p], [unique], 0));
  }

  lemma FirstSlotPut(entry: seq<byte>, slots: seq<seq<byte>>) returns (area: seq<byte>)
    requires |entry| == ENTRY && slots == seq(SLOTS, _ => Zeros(ENTRY))
    ensures |area| == AREA && SlotsAre(area, slots[0 := entry]) && area[0 * ENTRY..0 * ENTRY + 16] == entry[..16]
  {
    BlankSlots(Zeros(AREA));
    area := entry + Zeros(AREA - ENTRY);
    assert area[0 * ENTRY..(0 + 1) * ENTRY] == entry;
    SlotPut(Zeros(AREA), area, slots, 0, entry);
  }

  /** An empty label is lost when its header or entries come down on the first two sectors,
      and gains a partition when the header comes down on the entries. */
  lemma EmptyLabelLost(before: seq<byte>, t: Table, area: seq<byte>, crc: seq<byte> -> uint32, size: Lba, was: Table)
    requires t.sectors >= 2048 && !BackupHarmless(t.sectors) && t.parts == [] && area == Zeros(AREA)
    requires |before| >= 34 * SECTOR && !(3 <= BackupEntries(t.sectors) <= 33)
    ensures !Carried(before, t, area, crc, size, was)
  {
    WrappedPlaces(t.sectors);
    var h, e := BackupHeader(t.sectors), BackupEntries(t.sectors);
    var b := Backup(t, crc(area));
    var three := WithPrimary(before, t, area, crc);
    if h <= 1 {
      HeaderOnTop(three, e, area, h, b, crc, size, was);
    }
    if 2 <= h < 32 {
      PrimaryThere(before, t, area, crc);
      HeaderOnEntries(three, e, area, h, b, crc);
      PartsReported(GptImage(before, t, area, crc), t, Primary(t, crc(area)), crc, size, was);
      SomeUsed(AreaOf(GptImage(before, t, area, crc)), 0, 0, 4 * (h - 2), MAX_PARTS);
    }
    if e <= 1 {
      EntriesOnTop(three, e, area, h, HeaderSector(b, crc), size, was);
    }
  }

  /** A partition is reported a second time when the entries come down on the primary ones,
      one sector or more further on. */
  lemma EntriesTwice(before: seq<byte>, t: Table, area: seq<byte>, crc: seq<byte> -> uint32, size: Lba, was: Table)
    requires t.sectors >= 2048 && 3 <= BackupEntries(t.sectors) <= 33 && |Rereads(t.parts)| == 1
    requires |before| >= 34 * SECTOR && |area| == AREA && !SlotFree(area, 0)
    ensures !Carried(before, t, area, crc, size, was)
  {
    WrappedHeader(t.sectors);
    var e, header := BackupEntries(t.sectors), HeaderSector(Backup(t, crc(area)), crc);
    PrimaryThere(before, t, area, crc);
    GptImageIs(before, t, area, crc, e, header);
    EntriesOnEntries(WithPrimary(before, t, area, crc), e, area, header);
    TwoReported(GptImage(before, t, area, crc), t, Primary(t, crc(area)), crc, 4 * (e - 2), size, was);
  }

  lemma GptImageIs(before: seq<byte>, t: Table, area: seq<byte>, crc: seq<byte> -> uint32, e: nat, header: seq<byte>)
    requires t.sectors >= 2048 && |area| == AREA && e == BackupEntries(t.sectors) && BackupHeader(t.sectors) == e + 32
    requires header == HeaderSector(Backup(t, crc(area)), crc)
    ensures GptImage(before, t, area, crc) ==
            Written(Written(WithPrimary(before, t, area, crc), e, area), e + 32, header)
  {
  }

  lemma TwoReported(image: seq<byte>, t: Table, p: Header, crc: seq<byte> -> uint32, k: nat, size: Lba, was: Table)
    requires |image| >= 34 * SECTOR && 1 <= t.sectors && image[0..SECTOR] == Protective(t.sectors)
    requires image[SECTOR..2 * SECTOR] == HeaderSector(p, crc) && p.entries == 2
    requires 0 < k < SLOTS && !SlotFree(AreaOf(image), 0) && !SlotFree(AreaOf(image), k)
    ensures |ScanOf(image, size, was).table.parts| >= 2
  {
    PartsReported(image, t, p, crc, size, was);
    TwoUsed(AreaOf(image), k);
  }

  lemma WrappedHeader(n: Lba)
    requires n >= 2048 && BackupEntries(n) <= 33
    ensures BackupHeader(n) == BackupEntries(n) + 32
  {
  }

  /** Behind an intact record and header, the partitions reported are the used entries. */
  lemma PartsReported(image: seq<byte>, t: Table, p: Header, crc: seq<byte> -> uint32, size: Lba, was: Table)
    requires |image| >= 34 * SECTOR && 1 <= t.sectors && image[0..SECTOR] == Protective(t.sectors)
    requires image[SECTOR..2 * SECTOR] == HeaderSector(p, crc) && p.entries == 2
    ensures |ScanOf(image, size, was).table.parts| == |UsedSlots(AreaOf(image), SLOTS, ENTRY, 0, 0, MAX_PARTS)|
  {
    ProtectiveFields(t.sectors);
    HeaderFields(p, crc);
    SectorsAt(image, 0, 1);
    EntriesWhere(image, p);
  }

  lemma {:induction false} SomeUsed(buf: seq<byte>, i: nat, at: nat, k: nat, room: nat)
    requires |buf| == AREA && i <= k < SLOTS && at == i * ENTRY && room > 0 && !SlotFree(buf, k)
    ensures UsedSlots(buf, SLOTS, ENTRY, i, at, room) != []
    decreases k - i
  {
    SlotPlace(buf, i, at);
    if i < k && SlotFree(buf, i) {
      SomeUsed(buf, i + 1, NextAt(at, ENTRY), k, room);
    }
  }

  lemma TwoUsed(buf: seq<byte>, k: nat)
    requires |buf| == AREA && 0 < k < SLOTS && !SlotFree(buf, 0) && !SlotFree(buf, k)
    ensures |UsedSlots(buf, SLOTS, ENTRY, 0, 0, MAX_PARTS)| >= 2
  {
    SlotPlace(buf, 0, 0);
    SomeUsed(buf, 1, NextAt(0, ENTRY), k, MAX_PARTS - 1);
  }

  lemma HeaderOnTop(three: seq<byte>, e: nat, area: seq<byte>, h: nat, b: Header, crc: seq<byte> -> uint32,
                    size: Lba, was: Table)
    requires |three| >= 34 * SECTOR && h <= 1 && b.alternate == 1 && |area| == AREA && e >= 34
    ensures var r := ScanOf(Written(Written(three, e, area), h, HeaderSector(b, crc)), size, was);
            !r.table.gpt || r.table.sectors == 2
  {
    var header := HeaderSector(b, crc);
    var image := Written(Written(three, e, area), h, header);
    WrittenThere(Written(three, e, area), h, header);
    SectorsAt(image, h, 1);
    if h == 0 {
      HeaderUnmarked(b, crc);
      Unmarked(image, size, was);
    }
    if h == 1 {
      HeaderFields(b, crc);
      TwoSectors(image, b, size, was);
    }
  }

  lemma HeaderUnmarked(b: Header, crc: seq<byte> -> uint32)
    ensures Field(HeaderSector(b, crc), 510, 2) == 0
  {
    var head := HeaderBytes(b, crc(HeaderBytes(b, 0)) as int);
    assert (head + Zeros(420))[510..510 + 2] == Zeros(2);
    ZeroField(HeaderSector(b, crc), 510, 2);
  }

  lemma Unmarked(image: seq<byte>, size: Lba, was: Table)
    requires |Sectors(image, 0, 1)| == SECTOR && Field(Sectors(image, 0, 1), 510, 2) == 0
    ensures !ScanOf(image, size, was).table.gpt
  {
  }

  lemma TwoSectors(image: seq<byte>, b: Header, size: Lba, was: Table)
    requires HeaderIs(Sectors(image, 1, 1), b) && b.alternate == 1
    ensures var r := ScanOf(image, size, was); !r.table.gpt || r.table.sectors == 2
  {
  }

  lemma {:induction false} ZeroValue(s: seq<byte>, n: nat)
    requires n <= |s| && s[..n] == Zeros(n)
    ensures LittleEndian(s, n) == 0
  {
    if n > 0 {
      assert s[n - 1] == s[..n][n - 1] == 0;
      assert s[..n - 1] == s[..n][..n - 1] == Zeros(n - 1);
      ZeroValue(s, n - 1);
    }
  }

  lemma ZeroField(s: seq<byte>, at: nat, n: nat)
    requires at + n <= |s| && s[at..at + n] == Zeros(n)
    ensures Field(s, at, n) == 0
  {
    var f := s[at..at + n];
    assert f[..n] == f;
    ZeroValue(f, n);
  }

  /** Zero entries over sector 0 wipe the record's mark, over sector 1 the header's. */
  lemma EntriesOnTop(three: seq<byte>, e: nat, area: seq<byte>, h: nat, header: seq<byte>, size: Lba, was: Table)
    requires |three| >= 34 * SECTOR && e <= 1 && h == e + 32 && area == Zeros(AREA) && |header| == SECTOR
    ensures !ScanOf(Written(Written(three, e, area), h, header), size, was).table.gpt
  {
    var four := Written(three, e, area);
    var image := Written(four, h, header);
    WrittenThere(three, e, area);
    WrittenElsewhere(four, h, header, e * SECTOR, (e + 1) * SECTOR);
    SectorsAt(image, e, 1);
    assert Sectors(image, e, 1) == four[e * SECTOR..e * SECTOR + AREA][..SECTOR] == Zeros(SECTOR);
    ZeroSector(image, e, size, was);
  }

  lemma ZeroSector(image: seq<byte>, e: nat, size: Lba, was: Table)
    requires e <= 1 && Sectors(image, e, 1) == Zeros(SECTOR)
    ensures !ScanOf(image, size, was).table.gpt
  {
    var s := Zeros(SECTOR);
    assert s[510..510 + 2] == Zeros(2) && s[0..0 + 8] == Zeros(8);
    ZeroField(s, 510, 2);
    ZeroField(s, 0, 8);
  }

  // The device's table area, as a scan reads it.
  function AreaOf(image: seq<byte>): (s: seq<byte>)
    requires |image| >= 34 * SECTOR
    ensures |s| == AREA
  {
    image[2 * SECTOR..34 * SECTOR]
  }

  /** A header among the entries is taken for a partition. */
  lemma HeaderOnEntries(three: seq<byte>, e: nat, area: seq<byte>, h: nat, b: Header, crc: seq<byte> -> uint32)
    requires |three| >= 34 * SECTOR && 2 <= h < 32 && e >= 34 && |area| == AREA
    ensures var image := Written(Written(three, e, area), h, HeaderSector(b, crc));
            && image[0..SECTOR] == three[0..SECTOR] && image[SECTOR..2 * SECTOR] == three[SECTOR..2 * SECTOR]
            && !SlotFree(AreaOf(image), 4 * (h - 2))
  {
    var four, header := Written(three, e, area), HeaderSector(b, crc);
    var image := Written(four, h, header);
    WrittenElsewhere(three, e, area, 0, SECTOR);
    WrittenElsewhere(four, h, header, 0, SECTOR);
    WrittenElsewhere(three, e, area, SECTOR, 2 * SECTOR);
    WrittenElsewhere(four, h, header, SECTOR, 2 * SECTOR);
    WrittenThere(four, h, header);
    HeaderFields(b, crc);
    NotZeroField(header, 8);
    UsedWhere(image, h, header);
  }

  lemma NotZeroField(s: seq<byte>, n: nat)
    requires n <= 16 <= |s| && Field(s, 0, n) != 0
    ensures !IsZero(s[..16])
  {
    if IsZero(s[..16]) {
      assert forall i :: 0 <= i < n ==> s[0..0 + n][i] == s[..16][i] && s[..16][i] in s[..16];
      assert s[0..0 + n] == Zeros(n);
      ZeroField(s, 0, n);
    }
  }

  // The slot at the start of sector h holds what was written there.
  lemma UsedWhere(image: seq<byte>, h: nat, data: seq<byte>)
    requires |image| >= 34 * SECTOR && 2 <= h < 34 && |data| >= SECTOR
    requires image[h * SECTOR..h * SECTOR + SECTOR] == data[..SECTOR]
    requires !IsZero(data[..16])
    ensures !SlotFree(AreaOf(image), 4 * (h - 2))
  {
    var at, from := 4 * (h - 2) * ENTRY, h * SECTOR;
    SectorSlot(h);
    PartOf(image, 2 * SECTOR, AREA, at, at + 16);
    PartOf(image, from, SECTOR, 0, 16);
    PartOf(data, 0, SECTOR, 0, 16);
  }

  lemma SectorSlot(h: nat)
    requires 2 <= h < 34
    ensures 4 * (h - 2) < SLOTS && 2 * SECTOR + 4 * (h - 2) * ENTRY == h * SECTOR && 4 * (h - 2) * ENTRY + 16 <= AREA
  {
  }

  lemma PartOf(s: seq<byte>, at: nat, n: nat, a: nat, b: nat)
    requires at + n <= |s| && a <= b <= n
    ensures s[at..at + n][a..b] == s[at + a..at + b]
  {
    var x, y := s[at..at + n][a..b], s[at + a..at + b];
    assert |x| == |y| && forall k :: 0 <= k < b - a ==> x[k] == s[at..at + n][a + k] == s[at + (a + k)] == y[k];
  }

  lemma EntriesOnEntries(three: seq<byte>, e: nat, area: seq<byte>, header: seq<byte>)
    requires |three| >= 34 * SECTOR && 3 <= e <= 33 && |area| == AREA && |header| == SECTOR
    requires three[2 * SECTOR..34 * SECTOR] == area && !SlotFree(area, 0)
    ensures var image := Written(Written(three, e, area), e + 32, header);
            && image[0..SECTOR] == three[0..SECTOR] && image[SECTOR..2 * SECTOR] == three[SECTOR..2 * SECTOR]
            && !SlotFree(AreaOf(image), 0) && !SlotFree(AreaOf(image), 4 * (e - 2))
  {
    var four := Written(three, e, area);
    var image := Written(four, e + 32, header);
    WrittenElsewhere(three, e, area, 0, SECTOR);
    WrittenElsewhere(four, e + 32, header, 0, SECTOR);
    WrittenElsewhere(three, e, area, SECTOR, 2 * SECTOR);
    WrittenElsewhere(four, e + 32, header, SECTOR, 2 * SECTOR);
    WrittenElsewhere(three, e, area, 2 * SECTOR, 2 * SECTOR + SECTOR);
    WrittenElsewhere(four, e + 32, header, 2 * SECTOR, 2 * SECTOR + SECTOR);
    WrittenElsewhere(four, e + 32, header, e * SECTOR, e * SECTOR + SECTOR);
    FirstSectorThere(three, e, area);
    assert area[0 * ENTRY..0 * ENTRY + 16] == area[..16];
    assert three[2 * SECTOR..34 * SECTOR][..SECTOR] == three[2 * SECTOR..2 * SECTOR + SECTOR];
    UsedWhere(image, 2, area);
    UsedWhere(image, e, area);
  }

  // A device may end before the last entry written does.
  lemma FirstSectorThere(image: seq<byte>, e: nat, area: seq<byte>)
    requires (e + 1) * SECTOR <= |image| && |area| >= SECTOR
    ensures Written(image, e, area)[e * SECTOR..e * SECTOR + SECTOR] == area[..SECTOR]
  {
  }
}
