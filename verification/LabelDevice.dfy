// The label held in memory and its two operations on a device: write and scan.
module LabelDevice {
  import opened Arithmetic
  import opened Limbs
  import opened Bytes
  import opened PartitionTable
  import opened DiskLabel
  import opened LabelScan
  import opened MasterBootRecord
  import opened Words

  /** The used entries of the buffer; the reads stay inside it exactly when what is looked at
      of every entry lies inside. */
  method ReadEntries(data: seq<byte>, nr: int, size: nat) returns (ps: seq<Part>, inside: bool)
    ensures ps == PartsIn(data, nr, size)
    ensures inside <==> DataInside(data, nr, size)
  {
    ps, inside := [], true;
    if data == [] {
      return;
    }
    var i := 0;
    ghost var slots: seq<Slot> := [];
    while i < nr && |ps| < MAX_PARTS
      invariant i >= 0 && inside && Reading(data, nr, size, i, i * size % HALF, slots, ps)
      decreases nr - i
    {
      var at := i * size % HALF;
      NextAddress(i, size);
      ps, slots, inside := TakeEntry(data, nr, size, i, at, slots, ps);
      if !inside {
        break;
      }
      i := i + 1;
    }
    ReadingEnds(data, nr, size, i, i * size % HALF, slots, ps);
  }

  lemma NextAddress(i: nat, size: nat)
    ensures (i + 1) * size % HALF == NextAt(i * size % HALF, size)
  {
    assert (i + 1) * size == i * size + size;
    AddHalf(i * size, size);
  }

  lemma AddHalf(x: nat, y: nat)
    ensures (x + y) % HALF == (x % HALF + y) % HALF
  {
  }

  // The slots so far are decoded, the rest of the used ones are still to come.
  ghost predicate Reading(data: seq<byte>, nr: int, size: nat, i: nat, at: nat, slots: seq<Slot>, ps: seq<Part>) {
    && |ps| == |slots| <= MAX_PARTS && Mapped(Reader(data), slots, ps)
    && ToCome(data, nr, size, i, at, slots)
  }

  ghost predicate ToCome(data: seq<byte>, nr: int, size: nat, i: nat, at: nat, slots: seq<Slot>)
    requires |slots| <= MAX_PARTS
  {
    && slots + UsedSlots(data, nr, size, i, at, MAX_PARTS - |slots|) == UsedSlots(data, nr, size, 0, 0, MAX_PARTS)
    && (LooksInside(data, nr, size, i, at, MAX_PARTS - |slots|) <==> LooksInside(data, nr, size, 0, 0, MAX_PARTS))
  }

  lemma ReadingEnds(data: seq<byte>, nr: int, size: nat, i: nat, at: nat, slots: seq<Slot>, ps: seq<Part>)
    requires data != [] && Reading(data, nr, size, i, at, slots, ps)
    requires i >= nr || |ps| == MAX_PARTS || !LookInside(data, at)
    ensures ps == PartsIn(data, nr, size)
    ensures DataInside(data, nr, size) <==> i >= nr || |ps| == MAX_PARTS
  {
    assert slots + [] == slots;
    MappedSame(Reader(data), slots, ps, Found(data, slots));
  }

  method TakeEntry(data: seq<byte>, nr: int, size: nat, i: nat, at: nat, ghost slots: seq<Slot>, ps: seq<Part>)
      returns (ps': seq<Part>, ghost slots': seq<Slot>, inside: bool)
    requires i < nr && |ps| < MAX_PARTS && Reading(data, nr, size, i, at, slots, ps)
    ensures inside <==> LookInside(data, at)
    ensures if inside then Reading(data, nr, size, i + 1, NextAt(at, size), slots', ps')
            else (ps', slots') == (ps, slots)
  {
    ps', slots', inside := ps, slots, false;
    if at + 16 > |data| {
      return;
    }
    var kind := data[at..at + 16];
    if IsZero(kind) {
      inside := true;
      StepPast(slots, data, nr, size, i, at);
      return;
    }
    var p;
    p, inside := ReadEntry(data, at, i + 1);
    if inside {
      StepPast(slots, data, nr, size, i, at);
      ReaderAt(data, Slot(i, at));
      MappedOneMore(Reader(data), slots, ps, Slot(i, at), p);
      ps', slots' := ps + [p], slots + [Slot(i, at)];
    }
  }

  lemma StepPast(slots: seq<Slot>, data: seq<byte>, nr: int, size: nat, i: nat, at: nat)
    requires i < nr && LookInside(data, at) && |slots| < MAX_PARTS && ToCome(data, nr, size, i, at, slots)
    ensures ToCome(data, nr, size, i + 1, NextAt(at, size),
                   if IsZero(data[at..at + 16]) then slots else slots + [Slot(i, at)])
  {
    if !IsZero(data[at..at + 16]) {
      var rest := UsedSlots(data, nr, size, i + 1, NextAt(at, size), MAX_PARTS - |slots| - 1);
      assert slots + ([Slot(i, at)] + rest) == slots + [Slot(i, at)] + rest;
    }
  }

  method ReadEntry(data: seq<byte>, at: nat, number: nat) returns (p: Part, inside: bool)
    requires at + 16 <= |data|
    ensures inside <==> EntryInside(data, at)
    ensures inside ==> p == PartAt(data, at, number)
  {
    p, inside := NO_PART, false;
    if at + 48 > |data| {
      return;
    }
    var raw;
    raw, inside := DecodeUnits(data, at + 56);
    WordBound(data, at + 32);
    p := Part(number, Field(data, at + 32, 8), (Field(data, at + 40, 8) - Field(data, at + 32, 8) + 1) % WORD, 0,
              data[at..at + 16], CText(raw));
  }

  // The slots of a record, in order.
  method ReadRecord(s: seq<byte>) returns (ps: seq<Part>, end: int)
    requires |s| == SECTOR
    ensures ps == MbrParts(s) && end == MaxEnd(ps)
  {
    ps, end := [], 0;
    for i := 0 to 4
      invariant ps == FirstParts(s, i) && end == MaxEnd(ps)
    {
      ps, end := AddSlot(s, i, ps, end);
    }
    FourParts(s);
  }

  method AddSlot(s: seq<byte>, i: nat, ps: seq<Part>, end: int) returns (ps': seq<Part>, end': int)
    requires |s| == SECTOR && i < 4 && end == MaxEnd(ps)
    ensures ps' == ps + MbrPart(s, i) && end' == MaxEnd(ps')
  {
    ps', end' := ps, end;
    if s[446 + 16 * i + 4] == 0 {
      assert ps + [] == ps;
      return;
    }
    var p := ReadSlot(s, i);
    ps' := ps + [p];
    if p.start + p.count > end {
      end' := p.start + p.count;
    }
    EndOfOneMore(ps, p);
  }

  lemma EndOfOneMore(ps: seq<Part>, p: Part)
    ensures MaxEnd(ps + [p]) == Max(MaxEnd(ps), p.start + p.count)
  {
    assert (ps + [p])[..|ps|] == ps;
  }

  method ReadSlot(s: seq<byte>, i: nat) returns (p: Part)
    requires |s| == SECTOR && i < 4 && s[446 + 16 * i + 4] != 0
    ensures MbrPart(s, i) == [p]
  {
    var at := 446 + 16 * i;
    HalfBound(s, at + 8);
    HalfBound(s, at + 12);
    p := Part(i + 1, Field(s, at + 8, 4), Field(s, at + 12, 4), s[at + 4], Zeros(16), []);
  }

  lemma FourParts(s: seq<byte>)
    requires |s| == SECTOR
    ensures FirstParts(s, 4) == MbrParts(s)
  {
    Joins(MbrPart(s, 0), MbrPart(s, 1), MbrPart(s, 2), MbrPart(s, 3));
    assert FirstParts(s, 1) == [] + MbrPart(s, 0);
    assert FirstParts(s, 2) == FirstParts(s, 1) + MbrPart(s, 1);
    assert FirstParts(s, 3) == FirstParts(s, 2) + MbrPart(s, 2);
  }

  lemma Joins(a: seq<Part>, b: seq<Part>, c: seq<Part>, d: seq<Part>)
    ensures [] + a + b + c + d == a + b + c + d
  {
    assert [] + a == a;
  }

  function FirstParts(s: seq<byte>, n: nat): seq<Part>
    requires |s| == SECTOR && n <= 4
  {
    if n == 0 then [] else FirstParts(s, n - 1) + MbrPart(s, n - 1)
  }

  method WritePrimary(image: array<byte>, t: Table, area: seq<byte>, crc: seq<byte> -> uint32) returns (ok: bool)
    requires t.sectors >= 2048 && |area| == AREA
    modifies image
    ensures ok <==> image.Length >= 34 * SECTOR
    ensures ok ==> image[..] == WithPrimary(old(image[..]), t, area, crc)
  {
    var n := WriteSectors(image, 0, Protective(t.sectors));
    if n < SECTOR {
      return false;
    }
    n := WriteSectors(image, 1, HeaderSector(Primary(t, crc(area)), crc));
    if n < SECTOR {
      return false;
    }
    n := WriteSectors(image, 2, area);
    ok := n >= AREA;
  }

  // Failures of the backup writes are ignored.
  method WriteBackup(image: array<byte>, t: Table, area: seq<byte>, crc: seq<byte> -> uint32)
    requires t.sectors >= 2048 && |area| == AREA
    modifies image
    ensures image[..] == WithBackup(old(image[..]), t, area, crc)
  {
    var n := WriteSectors(image, BackupEntries(t.sectors), area);
    n := WriteSectors(image, BackupHeader(t.sectors), HeaderSector(Backup(t, crc(area)), crc));
  }

  class Label {
    var gpt: bool
    var sectors: Lba
    var parts: seq<Part>
    var guid: Guid
    var bootstrap: seq<byte>
    var modified: bool

    ghost predicate Valid()
      reads this
    {
      |parts| <= MAX_PARTS && |bootstrap| == 446
    }

    ghost function Value(): Table
      reads this
    {
      Table(gpt, sectors, parts, guid, bootstrap)
    }

    constructor (size: Lba)
      ensures Valid() && Value() == Table(false, size, [], Zeros(16), Zeros(446))
    {
      gpt, sectors, parts, guid, bootstrap, modified := false, size, [], Zeros(16), Zeros(446), false;
    }

    /** Replaces the label by the one on the device.  The reads stay inside what was read
        exactly when the entries looked at do; otherwise the partitions found up to there
        are kept, and what memory beyond would add is not modelled. */
    method Scan(image: array<byte>, size: Lba) returns (ok: bool, inside: bool)
      requires Valid()
      modifies this
      ensures inside <==> (Marked(image[..]) ==> EntriesInside(image[..]))
      ensures Valid() && !modified && Scanned(ok, Value()) == ScanOf(image[..], size, old(Value()))
    {
      inside := true;
      parts, gpt, sectors, modified := [], false, size, false;
      var s := ReadSectors(image, 0, 1);
      if |s| < SECTOR {
        return false, true;
      }
      bootstrap := s[..446];
      if Field(s, 510, 2) != MBR_MARK {
        return true, true;
      }
      var header := ReadSectors(image, 1, 1);
      if |header| == SECTOR && Field(header, 0, 8) == GPT_MARK {
        inside := ScanGpt(image, header);
        return true, inside;
      }
      var ps, end := ReadRecord(s);
      MbrPartsSmall(s);
      MaxEndBound(ps);
      parts := ps;
      if end > 0 {
        sectors := end;
      }
      ok := true;
    }

    method ScanGpt(image: array<byte>, header: seq<byte>) returns (inside: bool)
      requires Valid() && HasGpt(image[..]) && header == Sectors(image[..], 1, 1)
      modifies this
      ensures Valid() && Value() == GptTable(image[..], old(bootstrap)) && modified == old(modified)
      ensures inside <==> EntriesInside(image[..])
    {
      WordBound(header, 32);
      gpt, sectors, guid := true, Next(Field(header, 32, 8)), header[56..72];
      var data := ReadSectors(image, EntryLba(header), EntrySectors(EntryCount(header), EntrySize(header)));
      var ps;
      ps, inside := ReadEntries(data, EntryCount(header), EntrySize(header));
      parts := ps;
    }

    /** The protective record, the primary table, then the backup. */
    method WriteGpt(image: array<byte>, uniques: seq<Guid>, crc: seq<byte> -> uint32)
        returns (ok: bool, ghost area: seq<byte>)
      requires Valid() && |uniques| == |parts|
      modifies image
      ensures ok <==> sectors >= 2048 && image.Length >= 34 * SECTOR
      ensures ok ==> AreEntries(area, parts, uniques) && image[..] == GptImage(old(image[..]), Value(), area, crc)
      ensures sectors < 2048 ==> image[..] == old(image[..])
    {
      area := [];
      if sectors < 2048 {
        return false, area;
      }
      var t := Table(gpt, sectors, parts, guid, bootstrap);
      var buf := FillEntries(parts, uniques);
      var entries := buf[..];
      area := entries;
      ok := WritePrimary(image, t, entries, crc);
      if ok {
        WriteBackup(image, t, entries, crc);
      }
    }

    method WriteMbr(image: array<byte>) returns (ok: bool)
      requires Valid()
      modifies image
      ensures ok <==> image.Length >= SECTOR
      ensures ok ==> RecordIs(image[0..SECTOR], bootstrap, parts) && image[SECTOR..] == old(image[SECTOR..])
    {
      var sec := MakeRecord(bootstrap, parts);
      var record := sec[..];
      var n := WriteSectors(image, 0, record);
      ok := n >= SECTOR;
    }

    /** Writes the label in its own format; a written label is no longer modified. */
    method Write(image: array<byte>, confirmed: bool, uniques: seq<Guid>, crc: seq<byte> -> uint32)
        returns (ok: bool, ghost area: seq<byte>)
      requires Valid() && |uniques| == |parts|
      modifies image, this`modified
      ensures ok <==>
                confirmed && (if gpt then sectors >= 2048 && image.Length >= 34 * SECTOR else image.Length >= SECTOR)
      ensures ok ==> !modified
      ensures !ok ==> modified == old(modified)
      ensures !confirmed ==> image[..] == old(image[..])
      ensures ok && gpt ==>
                AreEntries(area, parts, uniques) && image[..] == GptImage(old(image[..]), Value(), area, crc)
      ensures ok && !gpt ==> RecordIs(image[0..SECTOR], bootstrap, parts) && image[SECTOR..] == old(image[SECTOR..])
    {
      area := [];
      if !confirmed {
        return false, area;
      }
      if gpt {
        ok, area := WriteGpt(image, uniques, crc);
      } else {
        ok := WriteMbr(image);
      }
      if ok {
        modified := false;
      }
    }
  }

  /** A GPT written from one label and scanned into another: the same disk size, disk GUID
      and partitions, for disks of 2048 to 2^32 sectors and the larger ones whose backup does
      no harm. */
  method WriteThenScan(from: Label, to: Label, image: array<byte>, size: Lba, uniques: seq<Guid>,
                       crc: seq<byte> -> uint32)
      returns (ok: bool, inside: bool)
    requires from != to && from.Valid() && to.Valid() && from.gpt && |uniques| == |from.parts|
    requires 2048 <= from.sectors && BackupHarmless(from.sectors) && image.Length >= 34 * SECTOR
    modifies from`modified, to, image
    ensures ok && inside && to.gpt && to.sectors == from.sectors && to.guid == from.guid
    ensures to.parts == Rereads(from.parts)
    ensures to.parts == Numbered(from.parts) <==> forall i :: 0 <= i < |from.parts| ==> Restorable(from.parts[i])
  {
    ghost var before, was := image[..], to.Value();
    ghost var area;
    ok, area := from.Write(image, true, uniques, crc);
    GptRoundTrip(before, from.Value(), uniques, area, crc, size, was);
    RestoredExactly(from.parts);
    ok, inside := to.Scan(image, size);
  }
}
