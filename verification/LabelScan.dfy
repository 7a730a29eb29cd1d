// The two directions together: a label in memory written to the device, and the
// device scanned for a label.
module LabelScan {
  import opened Arithmetic
  import opened Limbs
  import opened Bytes
  import opened PartitionTable
  import opened DiskLabel
  import opened Words

  datatype Scanned = Scanned(ok: bool, table: Table)

  // ------------------------------------------------------------------
  // What a scan reports
  // ------------------------------------------------------------------

  // At most 128; negative when the stored number has its top bit set.
  function EntryCount(header: seq<byte>): (nr: int)
    requires |header| == SECTOR
    ensures nr <= SLOTS
  {
    HalfBound(header, 80);
    var n := Field(header, 80, 4);
    if n >= 0x8000_0000 then n - HALF else if n > SLOTS then SLOTS else n
  }

  function EntrySize(header: seq<byte>): nat
    requires |header| == SECTOR
  {
    HalfBound(header, 84);
    Field(header, 84, 4)
  }

  function EntryLba(header: seq<byte>): nat
    requires |header| == SECTOR
  {
    Field(header, 72, 8) % HALF
  }

  // Computed in 32 bits, and capped by the buffer.
  function EntrySectors(nr: int, size: nat): nat {
    var n := (nr * size % HALF + 511) % HALF / SECTOR;
    if n > 32 then 32 else n
  }

  function EntryData(image: seq<byte>, header: seq<byte>): seq<byte>
    requires |header| == SECTOR
  {
    Sectors(image, EntryLba(header), EntrySectors(EntryCount(header), EntrySize(header)))
  }

  predicate HasGpt(image: seq<byte>) {
    |Sectors(image, 1, 1)| == SECTOR && Field(Sectors(image, 1, 1), 0, 8) == GPT_MARK
  }

  /** A scan looks at the header after a marked record only. */
  predicate Marked(image: seq<byte>) {
    |Sectors(image, 0, 1)| == SECTOR && Field(Sectors(image, 0, 1), 510, 2) == MBR_MARK
  }

  /** The entries a scan looks at lie inside the bytes it has read for them. */
  predicate EntriesInside(image: seq<byte>) {
    HasGpt(image) ==>
      var header := Sectors(image, 1, 1);
      DataInside(EntryData(image, header), EntryCount(header), EntrySize(header))
  }

  predicate DataInside(data: seq<byte>, nr: int, size: nat) {
    data == [] || LooksInside(data, nr, size, 0, 0, MAX_PARTS)
  }

  function GptTable(image: seq<byte>, boot: seq<byte>): Table
    requires HasGpt(image)
  {
    var header := Sectors(image, 1, 1);
    WordBound(header, 32);
    Table(true, Next(Field(header, 32, 8)),
          PartsIn(EntryData(image, header), EntryCount(header), EntrySize(header)), header[56..72], boot)
  }

  // One more, in 64 bits.
  function Next(x: Lba): Lba {
    if x == WORD - 1 then 0 else x + 1
  }

  function PartsIn(data: seq<byte>, nr: int, size: nat): seq<Part> {
    Found(data, UsedSlots(data, nr, size, 0, 0, MAX_PARTS))
  }

  /** The partition in a slot of the master boot record, when its type is not zero. */
  function MbrPart(s: seq<byte>, slot: nat): seq<Part>
    requires |s| == SECTOR && slot < 4
  {
    var at := 446 + 16 * slot;
    if s[at + 4] == 0 then []
    else
      HalfBound(s, at + 8);
      HalfBound(s, at + 12);
      [Part(slot + 1, Field(s, at + 8, 4), Field(s, at + 12, 4), s[at + 4], Zeros(16), [])]
  }

  function MbrParts(s: seq<byte>): seq<Part>
    requires |s| == SECTOR
  {
    MbrPart(s, 0) + MbrPart(s, 1) + MbrPart(s, 2) + MbrPart(s, 3)
  }

  function MaxEnd(ps: seq<Part>): int {
    if ps == [] then 0 else Max(MaxEnd(ps[..|ps| - 1]), ps[|ps| - 1].start + ps[|ps| - 1].count)
  }

  predicate Small(ps: seq<Part>) {
    forall p <- ps :: p.start < HALF && p.count < HALF
  }

  // Ends of 32-bit starts and counts stay far inside 64 bits.
  lemma {:induction false} MaxEndBound(ps: seq<Part>)
    requires Small(ps)
    ensures 0 <= MaxEnd(ps) < WORD
  {
    if ps != [] {
      assert ps[|ps| - 1] in ps;
      MaxEndBound(ps[..|ps| - 1]);
    }
  }

  /** Without a GPT the disk is taken to end with its last partition. */
  function DiskSize(ps: seq<Part>, size: Lba): Lba
    requires Small(ps)
  {
    MaxEndBound(ps);
    if MaxEnd(ps) > 0 then MaxEnd(ps) else size
  }

  lemma MbrPartSmall(s: seq<byte>, slot: nat)
    requires |s| == SECTOR && slot < 4
    ensures |MbrPart(s, slot)| <= 1 && Small(MbrPart(s, slot))
  {
    HalfBound(s, 446 + 16 * slot + 8);
    HalfBound(s, 446 + 16 * slot + 12);
  }

  lemma MbrPartsSmall(s: seq<byte>)
    requires |s| == SECTOR
    ensures |MbrParts(s)| <= 4 && Small(MbrParts(s))
  {
    MbrPartSmall(s, 0);
    MbrPartSmall(s, 1);
    MbrPartSmall(s, 2);
    MbrPartSmall(s, 3);
  }

  function MbrTable(s: seq<byte>, size: Lba, guid: Guid): Table
    requires |s| == SECTOR
  {
    MbrPartsSmall(s);
    Table(false, DiskSize(MbrParts(s), size), MbrParts(s), guid, s[..446])
  }

  /** A scan of a device of `size` sectors: the label found, over the label held before. */
  function ScanOf(image: seq<byte>, size: Lba, before: Table): Scanned {
    var s := Sectors(image, 0, 1);
    if |s| < SECTOR then Scanned(false, Table(false, size, [], before.guid, before.bootstrap))
    else if Field(s, 510, 2) != MBR_MARK then Scanned(true, Table(false, size, [], before.guid, s[..446]))
    else if HasGpt(image) then Scanned(true, GptTable(image, s[..446]))
    else Scanned(true, MbrTable(s, size, before.guid))
  }

  // ------------------------------------------------------------------
  // Round trip of a GPT
  // ------------------------------------------------------------------

  lemma SectorsAt(image: seq<byte>, lba: nat, count: nat)
    requires (lba + count) * SECTOR <= |image| && count > 0
    ensures Sectors(image, lba, count) == image[lba * SECTOR..(lba + count) * SECTOR]
  {
  }

  lemma ProtectiveFields(sectors: int)
    requires 1 <= sectors < WORD
    ensures var s := Protective(sectors); Field(s, 510, 2) == MBR_MARK && s[..446] == Zeros(446)
  {
    var s := Protective(sectors);
    Powers();
    assert s[510..510 + 2] == U16(MBR_MARK);
    FieldIs(s, 510, 2, MBR_MARK);
    assert s[..446] == Zeros(446);
  }

  /** A device that starts with a marked record, a header and the entries of partitions
      is scanned as that GPT. */
  lemma GptRead(image: seq<byte>, t: Table, h: Header, uniques: seq<Guid>, size: Lba, was: Table)
    requires |image| >= 34 * SECTOR && Field(image[0..SECTOR], 510, 2) == MBR_MARK &&
             image[0..SECTOR][..446] == t.bootstrap
    requires HeaderIs(image[SECTOR..2 * SECTOR], h) && h.entries == 2
    requires |uniques| == |t.parts| <= MAX_PARTS && AreEntries(image[2 * SECTOR..34 * SECTOR], t.parts, uniques)
    requires t.gpt && t.sectors == Next(h.alternate) && t.guid == h.guid
    ensures EntriesInside(image) &&
            ScanOf(image, size, was) == Scanned(true, Table(true, t.sectors, Rereads(t.parts), t.guid, t.bootstrap))
  {
    SectorsAt(image, 0, 1);
    SectorsAt(image, 1, 1);
    EntriesWhere(image, h);
    EntriesReadBack(image[2 * SECTOR..34 * SECTOR], t.parts, uniques);
    GptTableIs(image, h, Rereads(t.parts), t.bootstrap);
  }

  lemma EntriesWhere(image: seq<byte>, h: Header)
    requires |image| >= 34 * SECTOR && HeaderIs(image[SECTOR..2 * SECTOR], h) && h.entries == 2
    ensures HasGpt(image) && Sectors(image, 1, 1) == image[SECTOR..2 * SECTOR]
    ensures var header := Sectors(image, 1, 1);
            && EntryCount(header) == SLOTS && EntrySize(header) == ENTRY
            && EntryData(image, header) == image[2 * SECTOR..34 * SECTOR] && EntriesInside(image)
  {
    SectorsAt(image, 1, 1);
    SectorsAt(image, 2, 32);
    AllSlotsFit();
    LastInside(image[2 * SECTOR..34 * SECTOR], SLOTS, ENTRY, 0, 0, MAX_PARTS);
  }

  lemma AllSlotsFit()
    ensures EntrySectors(SLOTS, ENTRY) == 32 && (SLOTS - 1 - 0) * ENTRY + ENTRY == AREA == 34 * SECTOR - 2 * SECTOR
  {
  }

  lemma GptTableIs(image: seq<byte>, h: Header, ps: seq<Part>, boot: seq<byte>)
    requires HasGpt(image) && HeaderIs(Sectors(image, 1, 1), h)
    requires var header := Sectors(image, 1, 1);
             && EntryCount(header) == SLOTS && EntrySize(header) == ENTRY
             && PartsIn(EntryData(image, header), SLOTS, ENTRY) == ps
    ensures GptTable(image, boot) == Table(true, Next(h.alternate), ps, h.guid, boot)
  {
  }

  /** Writing a GPT and scanning gives back the disk size, the disk GUID and every
      partition of non-zero type, in order, whatever was on the device before. */
  lemma GptRoundTrip(before: seq<byte>, t: Table, uniques: seq<Guid>, area: seq<byte>, crc: seq<byte> -> uint32,
                     size: Lba, was: Table)
    requires t.gpt && t.sectors >= 2048 && BackupHarmless(t.sectors) && |before| >= 34 * SECTOR
    requires |uniques| == |t.parts| <= MAX_PARTS && AreEntries(area, t.parts, uniques)
    ensures EntriesInside(GptImage(before, t, area, crc))
    ensures ScanOf(GptImage(before, t, area, crc), size, was) ==
            Scanned(true, Table(true, t.sectors, Rereads(t.parts), t.guid, Zeros(446)))
  {
    PrimaryIntact(before, t, area, crc);
    GptRead(GptImage(before, t, area, crc), Table(true, t.sectors, t.parts, t.guid, Zeros(446)),
        Primary(t, crc(area)), uniques, size, was);
  }

  lemma PrimaryIntact(before: seq<byte>, t: Table, area: seq<byte>, crc: seq<byte> -> uint32)
    requires t.sectors >= 2048 && |area| == AREA && BackupHarmless(t.sectors) && |before| >= 34 * SECTOR
    ensures var image := GptImage(before, t, area, crc);
            && Field(image[0..SECTOR], 510, 2) == MBR_MARK && image[0..SECTOR][..446] == Zeros(446)
            && HeaderIs(image[SECTOR..2 * SECTOR], Primary(t, crc(area))) && image[2 * SECTOR..34 * SECTOR] == area
  {
    PrimarySurvives(before, t, area, crc);
    ProtectiveFields(t.sectors);
    HeaderFields(Primary(t, crc(area)), crc);
  }

  /** What the format can carry. */
  predicate Restorable(p: Part) {
    !IsZero(p.guid) && |p.name| <= 36 && forall c <- p.name :: c < 128
  }

  /** The partitions renumbered by position. */
  function Numbered(ps: seq<Part>): seq<Part> {
    seq(|ps|, i requires 0 <= i < |ps| => ps[i].(number := i + 1, mbrType := 0))
  }

  /** They all come back unchanged but for their numbers exactly when each has a type, a
      name of at most 36 characters, and no character above 127. */
  lemma RestoredExactly(ps: seq<Part>)
    ensures Rereads(ps) == Numbered(ps) <==> forall i :: 0 <= i < |ps| ==> Restorable(ps[i])
  {
    if forall i :: 0 <= i < |ps| ==> Restorable(ps[i]) {
      RestorableComeBack(ps);
    }
    if Rereads(ps) == Numbered(ps) {
      OnlyRestorableComeBack(ps);
    }
  }

  lemma RestorableComeBack(ps: seq<Part>)
    requires forall i :: 0 <= i < |ps| ==> Restorable(ps[i])
    ensures Rereads(ps) == Numbered(ps)
  {
    assert forall i :: 0 <= i < |ps| ==> Restorable(ps[i]) && !IsZero(ps[i].guid);
    AllUsed(ps, 0);
    forall i | 0 <= i < |ps|
      ensures Reread(ps[i], i + 1) == ps[i].(number := i + 1, mbrType := 0)
    {
      NameKept(ps[i].name);
    }
  }

  lemma OnlyRestorableComeBack(ps: seq<Part>)
    requires Rereads(ps) == Numbered(ps)
    ensures forall i :: 0 <= i < |ps| ==> Restorable(ps[i])
  {
    FullMeansUsed(ps, 0);
    AllUsed(ps, 0);
    forall i | 0 <= i < |ps|
      ensures Restorable(ps[i])
    {
      NameKept(ps[i].name);
      assert Rereads(ps)[i] == Reread(ps[i], i + 1) && Numbered(ps)[i].name == ps[i].name;
    }
  }

  lemma {:induction false} AllUsed(ps: seq<Part>, i: nat)
    requires i <= |ps| && forall k :: i <= k < |ps| ==> !IsZero(ps[k].guid)
    ensures |UsedParts(ps, i)| == |ps| - i && forall k :: 0 <= k < |ps| - i ==> UsedParts(ps, i)[k].index == i + k
    decreases |ps| - i
  {
    if i < |ps| {
      AllUsed(ps, i + 1);
    }
  }

  lemma {:induction false} FullMeansUsed(ps: seq<Part>, i: nat)
    requires i <= |ps| && |UsedParts(ps, i)| == |ps| - i
    ensures forall k :: i <= k < |ps| ==> !IsZero(ps[k].guid)
    decreases |ps| - i
  {
    if i < |ps| {
      FullMeansUsed(ps, i + 1);
    }
  }

  lemma NameKept(name: Name)
    ensures SevenBit(name) == name <==> |name| <= 36 && forall c <- name :: c < 128
  {
    var n := if |name| > 36 then 36 else |name|;
    var low := seq(n, k requires 0 <= k < |name| => name[k] % 128);
    CTextPrefix(low);
    if |name| <= 36 && forall c <- name :: c < 128 {
      forall k | 0 <= k < |name|
        ensures name[k] % 128 == name[k]
      {
        assert name[k] in name;
      }
      assert low == name;
      CTextWhole(low);
    }
    if SevenBit(name) == name {
      forall k | 0 <= k < |name|
        ensures name[k] < 128
      {
        assert SevenBit(name)[k] == low[k];
      }
    }
  }

  lemma {:induction false} CTextPrefix(raw: seq<byte>)
    ensures CText(raw) <= raw
  {
    if raw != [] && raw[0] != 0 {
      CTextPrefix(raw[1..]);
    }
  }

  lemma {:induction false} CTextWhole(raw: seq<byte>)
    requires forall c <- raw :: c != 0
    ensures CText(raw) == raw
  {
    if raw != [] {
      assert raw[0] in raw;
      assert forall c <- raw[1..] :: c in raw;
      CTextWhole(raw[1..]);
    }
  }
}
