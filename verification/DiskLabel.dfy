// Writing a disk's partition table and scanning the disk for one.
module DiskLabel {
  import opened Limbs
  import opened Bytes
  import opened PartitionTable
  import opened Words

  datatype Table = Table(gpt: bool, sectors: Lba, parts: seq<Part>, guid: Guid, bootstrap: seq<byte>)

  // ------------------------------------------------------------------
  // The image a written GPT leaves
  // ------------------------------------------------------------------

  // The backup's places; the first sector of its entries and its own are kept in 32 bits.
  function BackupEntries(sectors: Lba): nat
    requires sectors >= 2048
  {
    (sectors - 33) % HALF
  }

  function BackupHeader(sectors: Lba): nat
    requires sectors >= 2048
  {
    (sectors - 1) % HALF
  }

  function Primary(t: Table, sum: uint32): Header
    requires t.sectors >= 2048
  {
    Header(1, t.sectors - 1, t.sectors - 34, t.guid, 2, sum)
  }

  function Backup(t: Table, sum: uint32): Header
    requires t.sectors >= 2048
  {
    Header(t.sectors - 1, 1, t.sectors - 34, t.guid, BackupEntries(t.sectors), sum)
  }

  /** Protective record, header, entries, then the backup entries and header. */
  function GptImage(before: seq<byte>, t: Table, area: seq<byte>, crc: seq<byte> -> uint32): (image: seq<byte>)
    requires t.sectors >= 2048 && |area| == AREA
    ensures |image| == |before|
  {
    WithBackup(WithPrimary(before, t, area, crc), t, area, crc)
  }

  function WithPrimary(before: seq<byte>, t: Table, area: seq<byte>, crc: seq<byte> -> uint32): (image: seq<byte>)
    requires t.sectors >= 2048 && |area| == AREA
    ensures |image| == |before|
  {
    Written(Written(Written(before, 0, Protective(t.sectors)), 1, HeaderSector(Primary(t, crc(area)), crc)), 2, area)
  }

  function WithBackup(before: seq<byte>, t: Table, area: seq<byte>, crc: seq<byte> -> uint32): (image: seq<byte>)
    requires t.sectors >= 2048 && |area| == AREA
    ensures |image| == |before|
  {
    Written(Written(before, BackupEntries(t.sectors), area),
            BackupHeader(t.sectors), HeaderSector(Backup(t, crc(area)), crc))
  }

  /** The backup stays off the 34 sectors of the primary table. */
  predicate BackupApart(sectors: Lba)
    requires sectors >= 2048
  {
    BackupEntries(sectors) >= 34 && BackupHeader(sectors) >= 34
  }

  /** Up to 2^32 sectors it does, and lies at the disk's end. */
  lemma ApartUpTo32Bits(sectors: Lba)
    requires 2048 <= sectors <= HALF
    ensures BackupApart(sectors) && BackupEntries(sectors) + 33 == sectors && BackupHeader(sectors) + 1 == sectors
  {
  }

  /** It does no harm either where its entries fall on the primary ones. */
  predicate BackupHarmless(sectors: Lba)
    requires sectors >= 2048
  {
    BackupApart(sectors) || sectors % HALF == 35
  }

  lemma PrimarySurvives(before: seq<byte>, t: Table, area: seq<byte>, crc: seq<byte> -> uint32)
    requires t.sectors >= 2048 && |area| == AREA && BackupHarmless(t.sectors) && |before| >= 34 * SECTOR
    ensures var image := GptImage(before, t, area, crc);
            && image[0..SECTOR] == Protective(t.sectors)
            && image[SECTOR..2 * SECTOR] == HeaderSector(Primary(t, crc(area)), crc)
            && image[2 * SECTOR..34 * SECTOR] == area
  {
    PrimaryThere(before, t, area, crc);
    HarmlessPlaces(t.sectors);
    var three := WithPrimary(before, t, area, crc);
    BackupMisses(three, t, area, crc, 0, SECTOR);
    BackupMisses(three, t, area, crc, SECTOR, 2 * SECTOR);
    if BackupEntries(t.sectors) == 2 {
      SameEntriesAgain(three, area, HeaderSector(Backup(t, crc(area)), crc));
    } else {
      BackupMisses(three, t, area, crc, 2 * SECTOR, 34 * SECTOR);
    }
  }

  lemma HarmlessPlaces(sectors: Lba)
    requires sectors >= 2048 && BackupHarmless(sectors)
    ensures BackupHeader(sectors) >= 34
    ensures BackupEntries(sectors) >= 34 || (BackupEntries(sectors) == 2 && BackupHeader(sectors) == 34)
  {
    Wrapped(sectors, 33);
    Wrapped(sectors, 1);
  }

  lemma Wrapped(n: nat, k: nat)
    requires k <= n && k <= HALF
    ensures (n - k) % HALF == if n % HALF >= k then n % HALF - k else n % HALF - k + HALF
  {
  }

  lemma SameEntriesAgain(three: seq<byte>, area: seq<byte>, header: seq<byte>)
    requires |area| == AREA && |header| == SECTOR && |three| >= 34 * SECTOR
    ensures Written(Written(three, 2, area), 34, header)[2 * SECTOR..34 * SECTOR] == area
  {
    WrittenThere(three, 2, area);
    WrittenElsewhere(Written(three, 2, area), 34, header, 2 * SECTOR, 34 * SECTOR);
  }

  lemma PrimaryThere(before: seq<byte>, t: Table, area: seq<byte>, crc: seq<byte> -> uint32)
    requires t.sectors >= 2048 && |area| == AREA && |before| >= 34 * SECTOR
    ensures var three := WithPrimary(before, t, area, crc);
            && three[0..SECTOR] == Protective(t.sectors)
            && three[SECTOR..2 * SECTOR] == HeaderSector(Primary(t, crc(area)), crc)
            && three[2 * SECTOR..34 * SECTOR] == area
  {
    var one := Written(before, 0, Protective(t.sectors));
    var header := HeaderSector(Primary(t, crc(area)), crc);
    var two := Written(one, 1, header);
    WrittenThere(before, 0, Protective(t.sectors));
    WrittenThere(one, 1, header);
    WrittenThere(two, 2, area);
    WrittenElsewhere(one, 1, header, 0, SECTOR);
    WrittenElsewhere(two, 2, area, 0, SECTOR);
    WrittenElsewhere(two, 2, area, SECTOR, 2 * SECTOR);
  }

  lemma BackupMisses(three: seq<byte>, t: Table, area: seq<byte>, crc: seq<byte> -> uint32, from: nat, to: nat)
    requires t.sectors >= 2048 && |area| == AREA && from <= to <= |three|
    requires to <= BackupEntries(t.sectors) * SECTOR || (BackupEntries(t.sectors) + 32) * SECTOR <= from
    requires to <= BackupHeader(t.sectors) * SECTOR || (BackupHeader(t.sectors) + 1) * SECTOR <= from
    ensures WithBackup(three, t, area, crc)[from..to] == three[from..to]
  {
    var four := Written(three, BackupEntries(t.sectors), area);
    WrittenElsewhere(three, BackupEntries(t.sectors), area, from, to);
    WrittenElsewhere(four, BackupHeader(t.sectors), HeaderSector(Backup(t, crc(area)), crc), from, to);
  }

  /** On a device that has the sectors, the backup is a copy of the entries and a header
      that points back at the primary. */
  lemma BackupWritten(before: seq<byte>, t: Table, area: seq<byte>, crc: seq<byte> -> uint32)
    requires 2048 <= t.sectors <= HALF && |area| == AREA && |before| >= t.sectors * SECTOR
    ensures var image := GptImage(before, t, area, crc);
            var entries, last := BackupEntries(t.sectors), BackupHeader(t.sectors);
            && entries + 33 == last + 1 == t.sectors
            && image[entries * SECTOR..last * SECTOR] == area
            && image[last * SECTOR..(last + 1) * SECTOR] == HeaderSector(Backup(t, crc(area)), crc)
  {
    ApartUpTo32Bits(t.sectors);
    EndOfDisk(WithPrimary(before, t, area, crc), BackupEntries(t.sectors), area, BackupHeader(t.sectors),
              HeaderSector(Backup(t, crc(area)), crc));
  }

  lemma EndOfDisk(three: seq<byte>, lba: nat, area: seq<byte>, last: nat, header: seq<byte>)
    requires last == lba + 32 && |area| == AREA && |header| == SECTOR && (last + 1) * SECTOR <= |three|
    ensures var image := Written(Written(three, lba, area), last, header);
            image[lba * SECTOR..last * SECTOR] == area && image[last * SECTOR..(last + 1) * SECTOR] == header
  {
    var four := Written(three, lba, area);
    WrittenThere(three, lba, area);
    WrittenElsewhere(four, last, header, lba * SECTOR, last * SECTOR);
    WrittenThere(four, last, header);
  }

  /** Nothing but the first 34 and the last 33 sectors changes. */
  lemma DataUntouched(before: seq<byte>, t: Table, area: seq<byte>, crc: seq<byte> -> uint32, from: nat, to: nat)
    requires 2048 <= t.sectors <= HALF && |area| == AREA
    requires 34 * SECTOR <= from <= to <= (t.sectors - 33) * SECTOR && to <= |before|
    ensures GptImage(before, t, area, crc)[from..to] == before[from..to]
  {
    PrimaryMisses(before, t, area, crc, from, to);
    ApartUpTo32Bits(t.sectors);
    BackupMisses(WithPrimary(before, t, area, crc), t, area, crc, from, to);
  }

  lemma PrimaryMisses(before: seq<byte>, t: Table, area: seq<byte>, crc: seq<byte> -> uint32, from: nat, to: nat)
    requires t.sectors >= 2048 && |area| == AREA && 34 * SECTOR <= from <= to <= |before|
    ensures WithPrimary(before, t, area, crc)[from..to] == before[from..to]
  {
    var one := Written(before, 0, Protective(t.sectors));
    var header := HeaderSector(Primary(t, crc(area)), crc);
    var two := Written(one, 1, header);
    WrittenElsewhere(before, 0, Protective(t.sectors), from, to);
    WrittenElsewhere(one, 1, header, from, to);
    WrittenElsewhere(two, 2, area, from, to);
  }

  // ------------------------------------------------------------------
  // What a scan finds
  // ------------------------------------------------------------------

  predicate IsZero(g: Guid) {
    forall b <- g :: b == 0
  }

  // An entry's index and where its bytes start.
  datatype Slot = Slot(index: nat, at: nat)

  predicate Inside(slots: seq<Slot>, buf: seq<byte>) {
    forall k :: 0 <= k < |slots| ==> EntryInside(buf, slots[k].at)
  }

  /** What is looked at of an entry lies inside: 16 bytes when they show it is free. */
  predicate LookInside(buf: seq<byte>, at: nat) {
    at + 16 <= |buf| && (IsZero(buf[at..at + 16]) || EntryInside(buf, at))
  }

  /** Entry after entry, each address computed in 32 bits. */
  function NextAt(at: nat, size: nat): nat {
    (at + size) % HALF
  }

  /** The used entries from index i, at most `room` of them, as far as they lie inside. */
  function UsedSlots(buf: seq<byte>, nr: int, size: nat, i: nat, at: nat, room: nat): (r: seq<Slot>)
    ensures |r| <= room && Inside(r, buf)
    decreases if i < nr then nr - i else 0
  {
    if i >= nr || room == 0 || !LookInside(buf, at) then []
    else if IsZero(buf[at..at + 16]) then UsedSlots(buf, nr, size, i + 1, NextAt(at, size), room)
    else [Slot(i, at)] + UsedSlots(buf, nr, size, i + 1, NextAt(at, size), room - 1)
  }

  /** Every entry looked at, until `room` used ones are found, lies inside the buffer. */
  predicate LooksInside(buf: seq<byte>, nr: int, size: nat, i: nat, at: nat, room: nat)
    decreases if i < nr then nr - i else 0
  {
    i >= nr || room == 0 ||
    (LookInside(buf, at) &&
     LooksInside(buf, nr, size, i + 1, NextAt(at, size), if IsZero(buf[at..at + 16]) then room else room - 1))
  }

  /** They do when the last entry ends inside, whatever they hold. */
  lemma {:induction false} LastInside(buf: seq<byte>, nr: int, size: nat, i: nat, at: nat, room: nat)
    requires i < nr ==> at + (nr - 1 - i) * size + ENTRY <= |buf| < HALF
    ensures LooksInside(buf, nr, size, i, at, room)
    decreases if i < nr then nr - i else 0
  {
    if i < nr && room > 0 {
      Bytes.NonNegative(nr - 1 - i, size);
      if i + 1 < nr {
        OneLess(nr - 1 - i, size);
        Bytes.NonNegative(nr - 2 - i, size);
      }
      WholeEntryInside(buf, at);
      LastInside(buf, nr, size, i + 1, NextAt(at, size), if IsZero(buf[at..at + 16]) then room else room - 1);
    }
  }

  /** Of free entries only the types are looked at: 32 entries of 16 bytes fit one sector. */
  lemma {:induction false} FreeInside(buf: seq<byte>, nr: int, size: nat, i: nat, at: nat, room: nat)
    requires i < nr ==> at + (nr - 1 - i) * size + 16 <= |buf| < HALF
    requires forall k :: 0 <= k < |buf| ==> buf[k] == 0
    ensures LooksInside(buf, nr, size, i, at, room) && UsedSlots(buf, nr, size, i, at, room) == []
    decreases if i < nr then nr - i else 0
  {
    if i < nr && room > 0 {
      Bytes.NonNegative(nr - 1 - i, size);
      if i + 1 < nr {
        OneLess(nr - 1 - i, size);
        Bytes.NonNegative(nr - 2 - i, size);
      }
      AllZero(buf, at);
      FreeInside(buf, nr, size, i + 1, NextAt(at, size), room);
    }
  }

  lemma AllZero(buf: seq<byte>, at: nat)
    requires at + 16 <= |buf| && forall k :: 0 <= k < |buf| ==> buf[k] == 0
    ensures IsZero(buf[at..at + 16])
  {
  }

  lemma OneLess(k: int, size: nat)
    ensures k * size == size + (k - 1) * size
  {
  }

  const NO_PART: Part := Part(0, 0, 0, 0, [0, 0, 0, 0, 0, 0, 0, 0, 0, 0, 0, 0, 0, 0, 0, 0], [])

  // Reading the part at a slot.
  function Reader(buf: seq<byte>): Slot -> Part {
    (s: Slot) => PartIn(buf, s)
  }

  function PartIn(buf: seq<byte>, s: Slot): Part {
    if EntryInside(buf, s.at) then PartAt(buf, s.at, s.index + 1) else NO_PART
  }

  function Found(buf: seq<byte>, slots: seq<Slot>): (ps: seq<Part>)
    ensures Mapped(Reader(buf), slots, ps)
  {
    var read := Reader(buf);
    seq(|slots|, k requires 0 <= k < |slots| => read(slots[k]))
  }

  predicate Mapped<T, U(==)>(f: T -> U, xs: seq<T>, ys: seq<U>) {
    |xs| == |ys| && forall k :: 0 <= k < |xs| ==> ys[k] == f(xs[k])
  }

  lemma MappedOneMore<T, U>(f: T -> U, xs: seq<T>, ys: seq<U>, x: T, y: U)
    requires Mapped(f, xs, ys) && y == f(x)
    ensures Mapped(f, xs + [x], ys + [y])
  {
  }

  lemma MappedSame<T, U>(f: T -> U, xs: seq<T>, ys: seq<U>, zs: seq<U>)
    requires Mapped(f, xs, ys) && Mapped(f, xs, zs)
    ensures ys == zs
  {
  }

  /** The partitions of non-zero type. */
  function UsedParts(ps: seq<Part>, i: nat): (r: seq<Slot>)
    requires i <= |ps|
    ensures |r| <= |ps| - i && forall k :: 0 <= k < |r| ==> i <= r[k].index < |ps| && r[k].at == r[k].index * ENTRY
    decreases |ps| - i
  {
    if i == |ps| then []
    else if IsZero(ps[i].guid) then UsedParts(ps, i + 1)
    else [Slot(i, i * ENTRY)] + UsedParts(ps, i + 1)
  }

  /** What a scan makes of written partitions: those of zero type are free slots, the
      others are numbered by position. */
  function Rereads(ps: seq<Part>): seq<Part> {
    RereadSlots(ps, UsedParts(ps, 0))
  }

  function RereadSlots(ps: seq<Part>, used: seq<Slot>): (r: seq<Part>)
    requires forall k :: 0 <= k < |used| ==> used[k].index < |ps|
    ensures |r| == |used| && forall k :: 0 <= k < |used| ==> r[k] == Reread(ps[used[k].index], used[k].index + 1)
  {
    seq(|used|, k requires 0 <= k < |used| => Reread(ps[used[k].index], used[k].index + 1))
  }

  lemma {:induction false} UsedSlotsAre(buf: seq<byte>, ps: seq<Part>, i: nat, at: nat, room: nat)
    requires |buf| == AREA && |ps| <= MAX_PARTS && i <= |ps| && room >= |ps| - i && at == i * ENTRY
    requires TypesMatch(buf, ps)
    ensures UsedSlots(buf, SLOTS, ENTRY, i, at, room) == UsedParts(ps, i)
    decreases |ps| - i
  {
    if i < |ps| {
      SlotPlace(buf, i, at);
      UsedSlotsAre(buf, ps, i + 1, NextAt(at, ENTRY), if IsZero(ps[i].guid) then room else room - 1);
    } else {
      NoneUsed(buf, ps, i, at, room);
    }
  }

  lemma SlotPlace(buf: seq<byte>, i: nat, at: nat)
    requires |buf| == AREA && i < SLOTS && at == i * ENTRY
    ensures at + ENTRY <= |buf| && NextAt(at, ENTRY) == (i + 1) * ENTRY && LookInside(buf, at)
    ensures SlotFree(buf, i) <==> IsZero(buf[at..at + 16])
  {
    WholeEntryInside(buf, at);
  }

  ghost predicate TypesMatch(buf: seq<byte>, ps: seq<Part>)
    requires |buf| == AREA
  {
    forall i: nat :: i < SLOTS ==> (SlotFree(buf, i) <==> (i < |ps| ==> IsZero(ps[i].guid)))
  }

  predicate SlotFree(buf: seq<byte>, i: nat)
    requires |buf| == AREA && i < SLOTS
  {
    IsZero(buf[i * ENTRY..i * ENTRY + 16])
  }

  lemma {:induction false} NoneUsed(buf: seq<byte>, ps: seq<Part>, i: nat, at: nat, room: nat)
    requires |buf| == AREA && |ps| <= i && at == i * ENTRY && TypesMatch(buf, ps)
    ensures UsedSlots(buf, SLOTS, ENTRY, i, at, room) == []
    decreases if i < SLOTS then SLOTS - i else 0
  {
    if i < SLOTS {
      SlotPlace(buf, i, at);
      NoneUsed(buf, ps, i + 1, NextAt(at, ENTRY), room);
    }
  }

  lemma TypesWritten(buf: seq<byte>, ps: seq<Part>, uniques: seq<Guid>)
    requires |uniques| == |ps| <= MAX_PARTS && AreEntries(buf, ps, uniques)
    ensures TypesMatch(buf, ps)
  {
    var slots := Slots(ps, uniques, |ps|);
    forall i: nat | i < SLOTS
      ensures SlotFree(buf, i) <==> (i < |ps| ==> IsZero(ps[i].guid))
    {
      SlotHead(buf, slots, i, i * ENTRY);
      if i < |ps| {
        EntryFields(ps[i], uniques[i]);
      } else {
        assert Zeros(ENTRY)[..16] == Zeros(16);
      }
    }
  }

  lemma SlotHead(buf: seq<byte>, slots: seq<seq<byte>>, i: nat, at: nat)
    requires SlotsAre(buf, slots) && i < SLOTS && at == i * ENTRY
    ensures |slots[i]| == ENTRY && buf[at..at + ENTRY] == slots[i] && buf[at..at + 16] == slots[i][..16]
  {
    assert (i + 1) * ENTRY == at + ENTRY;
    assert buf[at..at + 16] == buf[at..at + ENTRY][..16];
  }

  lemma SlotReadBack(buf: seq<byte>, ps: seq<Part>, uniques: seq<Guid>, i: nat, at: nat)
    requires |uniques| == |ps| <= MAX_PARTS && AreEntries(buf, ps, uniques) && i < |ps| && at == i * ENTRY
    ensures EntryInside(buf, at) && PartAt(buf, at, i + 1) == Reread(ps[i], i + 1)
  {
    SlotHead(buf, Slots(ps, uniques, |ps|), i, at);
    EntryReadBack(ps[i], uniques[i], buf, at, i + 1);
  }

  /** Reading back a written entry array. */
  lemma EntriesReadBack(buf: seq<byte>, ps: seq<Part>, uniques: seq<Guid>)
    requires |uniques| == |ps| <= MAX_PARTS && AreEntries(buf, ps, uniques)
    ensures Found(buf, UsedSlots(buf, SLOTS, ENTRY, 0, 0, MAX_PARTS)) == Rereads(ps)
  {
    TypesWritten(buf, ps, uniques);
    UsedSlotsAre(buf, ps, 0, 0, MAX_PARTS);
    FoundAre(buf, ps, uniques, UsedParts(ps, 0));
  }

  lemma FoundAre(buf: seq<byte>, ps: seq<Part>, uniques: seq<Guid>, used: seq<Slot>)
    requires |uniques| == |ps| <= MAX_PARTS && AreEntries(buf, ps, uniques) && |buf| == AREA
    requires forall k :: 0 <= k < |used| ==> used[k].index < |ps| && used[k].at == used[k].index * ENTRY
    ensures Inside(used, buf)
    ensures Found(buf, used) == RereadSlots(ps, used)
  {
    forall k | 0 <= k < |used|
      ensures EntryInside(buf, used[k].at) && Reader(buf)(used[k]) == Reread(ps[used[k].index], used[k].index + 1)
    {
      OneFound(buf, ps, uniques, used[k]);
    }
  }

  lemma OneFound(buf: seq<byte>, ps: seq<Part>, uniques: seq<Guid>, s: Slot)
    requires |uniques| == |ps| <= MAX_PARTS && AreEntries(buf, ps, uniques) && s.index < |ps| && s.at == s.index * ENTRY
    ensures EntryInside(buf, s.at) && Reader(buf)(s) == Reread(ps[s.index], s.index + 1)
  {
    SlotReadBack(buf, ps, uniques, s.index, s.at);
    ReaderAt(buf, s);
  }

  lemma ReaderAt(buf: seq<byte>, s: Slot)
    requires EntryInside(buf, s.at)
    ensures Reader(buf)(s) == PartAt(buf, s.at, s.index + 1)
  {
  }
}
