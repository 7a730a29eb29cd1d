// What a written GPT says, field by field, as section 5.3 of the UEFI specification lays it
// out: the protective record, the two headers, and an entry.
module GptFacts {
  import opened Limbs
  import opened Bytes
  import opened PartitionTable
  import opened DiskLabel
  import opened MasterBootRecord
  import opened Words

  lemma HeaderPieces(a: seq<byte>, b: seq<byte>, c: seq<byte>, d: seq<byte>, e: seq<byte>, f: seq<byte>, g: seq<byte>,
                     h: seq<byte>, i: seq<byte>, j: seq<byte>, k: seq<byte>, l: seq<byte>, m: seq<byte>, n: seq<byte>,
                     z: seq<byte>)
    requires |a| == 8 && |b| == 4 && |c| == 4 && |d| == 4 && |e| == 4 && |f| == 8 && |g| == 8 && |h| == 8 && |i| == 8
    requires |j| == 16 && |k| == 8 && |l| == 4 && |m| == 4 && |n| == 4
    ensures var s := a + b + c + d + e + f + g + (h + i) + j + k + l + m + n + z;
            && s[0..0 + 8] == a && s[8..8 + 4] == b && s[12..12 + 4] == c && s[16..16 + 4] == d && s[20..20 + 4] == e
            && s[24..24 + 8] == f && s[32..32 + 8] == g && s[40..40 + 8] == h && s[48..48 + 8] == i
            && s[56..72] == j && s[72..72 + 8] == k && s[80..80 + 4] == l && s[84..84 + 4] == m && s[88..88 + 4] == n
  {
  }

  /** The fields of a header; its checksum is that of its first 92 bytes with zeros in the
      checksum's place. */
  ghost predicate Describes(s: seq<byte>, my: int, other: int, entries: int, sectors: int, guid: Guid, arraySum: int,
                      crc: seq<byte> -> uint32)
  {
    && |s| == 512 && Field(s, 0, 8) == 0x5452415020494645 && Field(s, 8, 4) == 0x00010000 && Field(s, 12, 4) == 92
    && Field(s, 16, 4) == crc(s[..16] + [0, 0, 0, 0] + s[20..92]) as int && Field(s, 20, 4) == 0
    && Field(s, 24, 8) == my && Field(s, 32, 8) == other && Field(s, 40, 8) == 34 && Field(s, 48, 8) == sectors - 34
    && s[56..72] == guid && Field(s, 72, 8) == entries && Field(s, 80, 4) == 128 && Field(s, 84, 4) == 128
    && Field(s, 88, 4) == arraySum && forall k :: 92 <= k < 512 ==> s[k] == 0
  }

  lemma {:induction false} EncodeZero(n: nat)
    requires 0 < Pow2(8 * n)
    ensures Encode(0, n) == Zeros(n)
  {
    if n > 0 {
      Pow2Split(8, 8 * (n - 1));
      Pow2Values();
      EncodeZero(n - 1);
      assert 0 % Pow2(8 * (n - 1)) == 0 && 0 / Pow2(8 * (n - 1)) == 0;
    }
  }

  // The same but for the fourth piece.
  lemma PieceReplaced(head: seq<byte>, d: seq<byte>, d': seq<byte>, e: seq<byte>, f: seq<byte>, g: seq<byte>,
                      h: seq<byte>, i: seq<byte>, j: seq<byte>, k: seq<byte>, l: seq<byte>, m: seq<byte>)
    requires |head| == 16 && |d| == |d'| == 4
    ensures var s := head + d + e + f + g + h + i + j + k + l + m;
            s[..16] + d' + s[20..] == head + d' + e + f + g + h + i + j + k + l + m
  {
    var tail := e + f + g + h + i + j + k + l + m;
    Associates(head + d, e, f, g, h, i, j, k, l, m);
    Associates(head + d', e, f, g, h, i, j, k, l, m);
    assert (head + d + tail)[..16] == head && (head + d + tail)[20..] == tail;
  }

  lemma Associates(p: seq<byte>, e: seq<byte>, f: seq<byte>, g: seq<byte>, h: seq<byte>, i: seq<byte>, j: seq<byte>,
                   k: seq<byte>, l: seq<byte>, m: seq<byte>)
    ensures p + e + f + g + h + i + j + k + l + m == p + (e + f + g + h + i + j + k + l + m)
  {
    assert p + e + f + g == p + (e + f + g);
    assert p + (e + f + g) + h + i == p + (e + f + g + h + i);
    assert p + (e + f + g + h + i) + j + k == p + (e + f + g + h + i + j + k);
  }

  lemma ZeroWord()
    ensures U32(0) == [0, 0, 0, 0]
  {
    Powers();
    EncodeZero(4);
    assert Zeros(4) == [0, 0, 0, 0];
  }

  lemma ToTheEnd(s: seq<byte>, from: nat, to: nat)
    requires from <= to == |s|
    ensures s[from..to] == s[from..]
  {
  }

  // The bytes the checksum covers.
  lemma ZeroSum(h: Header, sum: int)
    requires 0 <= sum < HALF
    ensures var s := HeaderBytes(h, sum); s[..16] + [0, 0, 0, 0] + s[20..92] == HeaderBytes(h, 0)
  {
    ZeroWord();
    ToTheEnd(HeaderBytes(h, sum), 20, 92);
    PieceReplaced(U64(GPT_MARK) + U32(0x10000) + U32(92), U32(sum), U32(0), U32(0), U64(h.my), U64(h.alternate),
                  U64(34) + U64(h.last), h.guid, U64(h.entries), U32(SLOTS), U32(ENTRY), U32(h.arraySum as int));
  }

  lemma HeaderDescribed(h: Header, sectors: int, crc: seq<byte> -> uint32)
    requires h.last as int == sectors - 34
    ensures Describes(HeaderSector(h, crc), h.my, h.alternate, h.entries, sectors, h.guid, h.arraySum as int, crc)
  {
    var sum := crc(HeaderBytes(h, 0)) as int;
    var head, s := HeaderBytes(h, sum), HeaderSector(h, crc);
    assert s[..16] == head[..16] && s[20..92] == head[20..92];
    ZeroSum(h, sum);
    HeaderPieces(U64(GPT_MARK), U32(0x10000), U32(92), U32(sum), U32(0), U64(h.my), U64(h.alternate), U64(34),
                 U64(h.last), h.guid, U64(h.entries), U32(SLOTS), U32(ENTRY), U32(h.arraySum as int), Zeros(420));
    Powers();
    FirstFields(s, h, sum);
    LastFields(s, h);
  }

  lemma FirstFields(s: seq<byte>, h: Header, sum: int)
    requires |s| == 512 && 0 <= sum < HALF && s[0..0 + 8] == U64(GPT_MARK) && s[8..8 + 4] == U32(0x10000)
    requires s[12..12 + 4] == U32(92) && s[16..16 + 4] == U32(sum) && s[20..20 + 4] == U32(0)
    requires s[24..24 + 8] == U64(h.my) && s[32..32 + 8] == U64(h.alternate)
    ensures Field(s, 0, 8) == GPT_MARK && Field(s, 8, 4) == 0x10000 && Field(s, 12, 4) == 92 && Field(s, 16, 4) == sum
    ensures Field(s, 20, 4) == 0 && Field(s, 24, 8) == h.my && Field(s, 32, 8) == h.alternate
  {
    Powers();
    FieldIs(s, 0, 8, GPT_MARK);
    FieldIs(s, 8, 4, 0x10000);
    FieldIs(s, 12, 4, 92);
    FieldIs(s, 16, 4, sum);
    FieldIs(s, 20, 4, 0);
    FieldIs(s, 24, 8, h.my);
    FieldIs(s, 32, 8, h.alternate);
  }

  lemma LastFields(s: seq<byte>, h: Header)
    requires |s| == 512 && s[40..40 + 8] == U64(34) && s[48..48 + 8] == U64(h.last) && s[72..72 + 8] == U64(h.entries)
    requires s[80..80 + 4] == U32(SLOTS) && s[84..84 + 4] == U32(ENTRY) && s[88..88 + 4] == U32(h.arraySum as int)
    ensures Field(s, 40, 8) == 34 && Field(s, 48, 8) == h.last && Field(s, 72, 8) == h.entries
    ensures Field(s, 80, 4) == 128 && Field(s, 84, 4) == 128 && Field(s, 88, 4) == h.arraySum as int
  {
    Powers();
    FieldIs(s, 40, 8, 34);
    FieldIs(s, 48, 8, h.last);
    FieldIs(s, 72, 8, h.entries);
    FieldIs(s, 80, 4, SLOTS);
    FieldIs(s, 84, 4, ENTRY);
    FieldIs(s, 88, 4, h.arraySum as int);
  }

  /** The protective record: one slot of type EE from sector 1 to the end of the disk, or of
      what 32 bits count, and the mark. */
  ghost predicate Protects(s: seq<byte>, sectors: int) {
    && |s| == 512 && (forall k :: 0 <= k < 450 || 451 <= k < 454 || 462 <= k < 510 ==> s[k] == 0) && s[450] == 0xEE
    && Field(s, 454, 4) == 1 && Field(s, 458, 4) == (if sectors > 0x1_0000_0000 then 0xFFFF_FFFF else sectors - 1)
    && Field(s, 510, 2) == 0xAA55
  }

  lemma RecordPieces(z: seq<byte>, a: seq<byte>, b: seq<byte>, c: seq<byte>, y: seq<byte>, m: seq<byte>)
    requires |z| == 446 && |a| == 8 && |b| == 4 && |c| == 4 && |y| == 48 && |m| == 2
    ensures var s := z + (a + b + c) + y + m;
            && s[..446] == z && s[446..454] == a && s[454..454 + 4] == b && s[458..458 + 4] == c && s[462..510] == y
            && s[510..510 + 2] == m
  {
  }

  lemma ProtectiveDescribed(sectors: int)
    requires 1 <= sectors < WORD
    ensures Protects(Protective(sectors), sectors)
  {
    var count := if sectors - 1 > HALF - 1 then HALF - 1 else sectors - 1;
    var s, head: seq<byte> := Protective(sectors), [0, 0, 0, 0, 0xEE, 0, 0, 0];
    RecordPieces(Zeros(446), head, U32(1), U32(count), Zeros(48), U16(MBR_MARK));
    Powers();
    FieldIs(s, 454, 4, 1);
    FieldIs(s, 458, 4, count);
    FieldIs(s, 510, 2, MBR_MARK);
    assert forall k :: 0 <= k < 446 ==> s[k] == s[..446][k];
    assert forall k :: 446 <= k < 454 ==> s[k] == head[k - 446];
    assert forall k :: 462 <= k < 510 ==> s[k] == s[462..510][k - 462];
  }

  /** On a device with its sectors, up to 2^32 of them: the record in sector 0, the header in
      sector 1 and the entries from sector 2, and at the end of the disk the entries again
      and a header that points back. */
  lemma GptWritten(before: seq<byte>, t: Table, area: seq<byte>, crc: seq<byte> -> uint32)
    requires 2048 <= t.sectors <= 0x1_0000_0000 && |area| == 16384 && |before| >= t.sectors * 512
    ensures var image, n, sum := GptImage(before, t, area, crc), t.sectors, crc(area) as int;
            && Protects(image[..512], n) && Describes(image[512..1024], 1, n - 1, 2, n, t.guid, sum, crc)
            && image[1024..17408] == area && image[(n - 33) * 512..(n - 1) * 512] == area
            && Describes(image[(n - 1) * 512..n * 512], n - 1, 1, n - 33, n, t.guid, sum, crc)
  {
    ApartUpTo32Bits(t.sectors);
    PrimarySurvives(before, t, area, crc);
    BackupWritten(before, t, area, crc);
    ProtectiveDescribed(t.sectors);
    HeaderDescribed(Primary(t, crc(area)), t.sectors, crc);
    HeaderDescribed(Backup(t, crc(area)), t.sectors, crc);
  }

  /** The fields of an entry: type, GUID of its own, first and last sector, no attributes, */
  lemma EntryDescribed(p: Part, unique: Guid)
    ensures var e := EntryBytes(p, unique);
            && e[..16] == p.guid && e[16..32] == unique && Field(e, 32, 8) == p.start
            && Field(e, 40, 8) == (p.start + p.count - 1) % 0x1_0000_0000_0000_0000 && Field(e, 48, 8) == 0
  {
    var e := EntryBytes(p, unique);
    EntryPieces(p.guid, unique, U64(p.start), U64(LastSector(p)), U64(0), NameUnits(p.name));
    Powers();
    FieldIs(e, 32, 8, p.start);
    FieldIs(e, 40, 8, LastSector(p));
    FieldIs(e, 48, 8, 0);
  }

  lemma EntryPieces(a: seq<byte>, b: seq<byte>, c: seq<byte>, d: seq<byte>, e: seq<byte>, f: seq<byte>)
    requires |a| == 16 && |b| == 16 && |c| == 8 && |d| == 8 && |e| == 8 && |f| == 72
    ensures var s := a + b + c + d + e + f;
            && s[..16] == a && s[16..32] == b && s[32..32 + 8] == c && s[40..40 + 8] == d && s[48..48 + 8] == e
  {
  }

  /** and the name in 16-bit units. */
  lemma NameDescribed(p: Part, unique: Guid, k: nat)
    requires k < 36
    ensures var e := EntryBytes(p, unique);
            e[56 + 2 * k] == (if k < |p.name| then p.name[k] else 0) && e[57 + 2 * k] == 0
  {
    LastPiece(p.guid + unique + U64(p.start) + U64(LastSector(p)) + U64(0), NameUnits(p.name), 2 * k);
    UnitAt(p.name, k);
  }

  lemma UnitAt(name: seq<byte>, k: nat)
    requires k < 36
    ensures NameUnits(name)[2 * k] == (if k < |name| then name[k] else 0) && NameUnits(name)[2 * k + 1] == 0
  {
    assert (2 * k) / 2 == k && (2 * k) % 2 == 0 && (2 * k + 1) % 2 == 1;
  }

  lemma LastPiece(a: seq<byte>, f: seq<byte>, k: nat)
    requires |a| == 56 && |f| == 72 && k + 1 < 72
    ensures (a + f)[56 + k] == f[k] && (a + f)[57 + k] == f[k + 1]
  {
  }

  /** Slot n of a master boot record is that of the last partition with this number. */
  lemma MbrSlot(s: seq<byte>, boot: seq<byte>, ps: seq<Part>, n: nat, i: nat)
    requires RecordIs(s, boot, ps) && 1 <= n <= 4 && i < |ps| && ps[i].number == n
    requires forall j :: i < j < |ps| ==> ps[j].number != n
    ensures var at := 430 + 16 * n;
            && s[at] == 0 && s[at + 4] == ps[i].mbrType
            && Field(s, at + 8, 4) == ps[i].start % 0x1_0000_0000 && Field(s, at + 12, 4) == ps[i].count % 0x1_0000_0000
  {
    var at := 446 + 16 * (n - 1);
    assert s[at..at + 16] == SlotEntry(ps, (n - 1) + 1) == PartEntry(ps[i]);
    EntryRead(s, at, ps[i]);
    assert s[at] == s[at..at + 16][0];
  }

  /** A slot without a partition is zero. */
  lemma MbrFreeSlot(s: seq<byte>, boot: seq<byte>, ps: seq<Part>, n: nat, k: nat)
    requires RecordIs(s, boot, ps) && 1 <= n <= 4 && (forall j :: 0 <= j < |ps| ==> ps[j].number != n) && k < 16
    ensures s[430 + 16 * n + k] == 0
  {
    var at := 446 + 16 * (n - 1);
    assert s[at..at + 16] == SlotEntry(ps, (n - 1) + 1);
    assert s[at + k] == s[at..at + 16][k];
  }
}
