// Partition tables on disk: writing a GUID partition table or an MBR, and scanning
// the disk again.  The device is an array of bytes in sectors of 512.
module PartitionTable {
  import opened Limbs
  import opened Bytes
  import opened Words

  const SECTOR: nat := 512
  const MAX_PARTS: nat := 16
  const SLOTS: nat := 128
  const ENTRY: nat := 128
  const AREA: nat := 16384
  const WORD: int := 0x1_0000_0000_0000_0000
  const HALF: int := 0x1_0000_0000
  const MBR_MARK: int := 0xAA55
  const GPT_MARK: int := 0x5452415020494645

  type Lba = x: int | 0 <= x < 0x1_0000_0000_0000_0000
  type Guid = g: seq<byte> | |g| == 16 witness [0, 0, 0, 0, 0, 0, 0, 0, 0, 0, 0, 0, 0, 0, 0, 0]
  // A C string in its buffer of 72.
  type Name = s: seq<byte> | |s| < 72 && forall c <- s :: c != 0 witness []

  datatype Part = Part(number: nat, start: Lba, count: Lba, mbrType: byte, guid: Guid, name: Name)

  function Field(s: seq<byte>, at: nat, n: nat): int
    requires at + n <= |s|
  {
    LittleEndian(s[at..at + n], n)
  }

  lemma Powers()
    ensures Pow2(16) == 65536 && Pow2(32) == HALF && Pow2(64) == WORD
  {
    Pow2Values();
    Pow2Split(16, 16);
    Pow2Split(32, 32);
  }

  function U16(v: int): (s: seq<byte>)
    requires 0 <= v < 65536
    ensures |s| == 2
  {
    Powers();
    Encode(v, 2)
  }

  function U32(v: int): (s: seq<byte>)
    requires 0 <= v < HALF
    ensures |s| == 4
  {
    Powers();
    Encode(v, 4)
  }

  function U64(v: int): (s: seq<byte>)
    requires 0 <= v < WORD
    ensures |s| == 8
  {
    Powers();
    Encode(v, 8)
  }

  lemma FieldIs(s: seq<byte>, at: nat, n: nat, v: int)
    requires at + n <= |s| && 0 <= v < Pow2(8 * n) && s[at..at + n] == Encode(v, n)
    ensures Field(s, at, n) == v
  {
    EncodeDecodes(v, n);
  }

  lemma FieldBound(s: seq<byte>, at: nat, n: nat)
    requires at + n <= |s|
    ensures 0 <= Field(s, at, n) < Pow2(8 * n)
  {
    LittleEndianBound(s[at..at + n], n);
  }

  lemma WordBound(s: seq<byte>, at: nat)
    requires at + 8 <= |s|
    ensures 0 <= Field(s, at, 8) < WORD
  {
    Powers();
    FieldBound(s, at, 8);
  }

  lemma HalfBound(s: seq<byte>, at: nat)
    requires at + 4 <= |s|
    ensures 0 <= Field(s, at, 4) < HALF
  {
    Powers();
    FieldBound(s, at, 4);
  }

  // ------------------------------------------------------------------
  // The device
  // ------------------------------------------------------------------

  /** Reads up to count sectors; short at the end of the device. */
  method ReadSectors(image: array<byte>, lba: nat, count: nat) returns (data: seq<byte>)
    ensures data == Sectors(image[..], lba, count)
  {
    var from := lba * SECTOR;
    if from >= image.Length {
      return [];
    }
    var to := from + count * SECTOR;
    data := if to <= image.Length then image[from..to] else image[from..];
  }

  function Sectors(image: seq<byte>, lba: nat, count: nat): seq<byte> {
    var from, to := lba * SECTOR, (lba + count) * SECTOR;
    if from >= |image| then [] else if to <= |image| then image[from..to] else image[from..]
  }

  /** The image after writing at a sector: what fits is written, the rest is untouched. */
  function Written(image: seq<byte>, lba: nat, data: seq<byte>): (s: seq<byte>)
    ensures |s| == |image|
  {
    var from, to := lba * SECTOR, lba * SECTOR + |data|;
    if from >= |image| then image
    else if to <= |image| then image[..from] + data + image[to..]
    else image[..from] + data[..|image| - from]
  }

  method WriteSectors(image: array<byte>, lba: nat, data: seq<byte>) returns (n: nat)
    modifies image
    ensures n == if lba * SECTOR + |data| <= image.Length then |data|
                 else if lba * SECTOR < image.Length then image.Length - lba * SECTOR else 0
    ensures image[..] == Written(old(image[..]), lba, data)
  {
    var from := lba * SECTOR;
    n := 0;
    while n < |data| && from + n < image.Length
      invariant n <= |data| && (n > 0 ==> from + n <= image.Length)
      invariant forall k :: 0 <= k < image.Length ==>
                  image[k] == if from <= k < from + n then data[k - from] else old(image[k])
    {
      image[from + n] := data[n];
      n := n + 1;
    }
  }

  lemma WrittenThere(image: seq<byte>, lba: nat, data: seq<byte>)
    requires lba * SECTOR + |data| <= |image|
    ensures Written(image, lba, data)[lba * SECTOR..lba * SECTOR + |data|] == data
  {
  }

  lemma WrittenElsewhere(image: seq<byte>, lba: nat, data: seq<byte>, from: nat, to: nat)
    requires from <= to <= |image| && (to <= lba * SECTOR || lba * SECTOR + |data| <= from)
    ensures Written(image, lba, data)[from..to] == image[from..to]
  {
  }

  // ------------------------------------------------------------------
  // GPT entries
  // ------------------------------------------------------------------

  /** A name in 16-bit units, at most 36 of them. */
  function NameUnits(name: seq<byte>): (s: seq<byte>)
    ensures |s| == 72
  {
    seq(72, j requires 0 <= j < 72 => if j % 2 == 0 && j / 2 < |name| then name[j / 2] else 0)
  }

  method EncodeName(name: seq<byte>) returns (units: seq<byte>)
    ensures units == NameUnits(name)
  {
    units := Zeros(72);
    var nlen := if |name| > 36 then 36 else |name|;
    for k := 0 to nlen
      invariant |units| == 72
      invariant forall j :: 0 <= j < 72 ==> units[j] == if j % 2 == 0 && j / 2 < k then name[j / 2] else 0
    {
      units := units[2 * k := name[k]];
    }
  }

  function LastSector(p: Part): Lba {
    (p.start + p.count - 1) % WORD
  }

  /** The 128 bytes of an entry (section 5.3.3 of the UEFI specification). */
  function EntryBytes(p: Part, unique: Guid): (s: seq<byte>)
    ensures |s| == ENTRY
  {
    p.guid + unique + U64(p.start) + U64(LastSector(p)) + U64(0) + NameUnits(p.name)
  }

  /** Up to the terminator. */
  function CText(raw: seq<byte>): (s: seq<byte>)
    ensures |s| <= |raw| && forall c <- s :: c != 0
  {
    if raw == [] || raw[0] == 0 then [] else [raw[0]] + CText(raw[1..])
  }

  predicate ZeroUnit(buf: seq<byte>, at: nat, k: nat)
    requires at + 2 * k + 2 <= |buf|
  {
    buf[at + 2 * k] == 0 && buf[at + 2 * k + 1] == 0
  }

  /** The units of a name looked at lie inside: those up to the first zero one, at most 36. */
  predicate NameInside(buf: seq<byte>, at: nat, k: nat)
    requires k <= 36
    decreases 36 - k
  {
    k == 36 || (at + 2 * k + 2 <= |buf| && (ZeroUnit(buf, at, k) || NameInside(buf, at, k + 1)))
  }

  lemma {:induction false} NameFits(buf: seq<byte>, at: nat, k: nat)
    requires k <= 36 && at + 72 <= |buf|
    ensures NameInside(buf, at, k)
    decreases 36 - k
  {
    if k < 36 {
      NameFits(buf, at, k + 1);
    }
  }

  // The 7-bit characters of the units before the first zero unit.
  function Units(buf: seq<byte>, at: nat, k: nat): (s: seq<byte>)
    requires k <= 36 && NameInside(buf, at, k)
    ensures |s| <= 36 - k
    decreases 36 - k
  {
    if k == 36 || ZeroUnit(buf, at, k) then []
    else [buf[at + 2 * k] % 128] + Units(buf, at, k + 1)
  }

  // The units so far are read, and the others are to come.
  ghost predicate Decoding(buf: seq<byte>, at: nat, k: nat, raw: seq<byte>)
    requires k <= 36
  {
    && (NameInside(buf, at, k) <==> NameInside(buf, at, 0))
    && (NameInside(buf, at, k) ==> raw + Units(buf, at, k) == Units(buf, at, 0))
  }

  lemma UnitsStep(raw: seq<byte>, buf: seq<byte>, at: nat, k: nat)
    requires k < 36 && at + 2 * k + 2 <= |buf| && !ZeroUnit(buf, at, k) && Decoding(buf, at, k, raw)
    ensures Decoding(buf, at, k + 1, raw + [buf[at + 2 * k] % 128])
  {
    NextUnit(buf, at, k);
    if NameInside(buf, at, k) {
      Moved(raw, buf[at + 2 * k] % 128, Units(buf, at, k + 1));
    }
  }

  lemma NextUnit(buf: seq<byte>, at: nat, k: nat)
    requires k < 36 && at + 2 * k + 2 <= |buf| && !ZeroUnit(buf, at, k)
    ensures NameInside(buf, at, k) <==> NameInside(buf, at, k + 1)
    ensures NameInside(buf, at, k) ==> Units(buf, at, k) == [buf[at + 2 * k] % 128] + Units(buf, at, k + 1)
  {
  }

  lemma Moved(raw: seq<byte>, c: byte, rest: seq<byte>)
    ensures raw + ([c] + rest) == raw + [c] + rest
  {
  }

  method DecodeUnits(buf: seq<byte>, at: nat) returns (raw: seq<byte>, inside: bool)
    ensures inside <==> NameInside(buf, at, 0)
    ensures inside ==> raw == Units(buf, at, 0)
    ensures |raw| <= 36
  {
    raw := [];
    var k := 0;
    while k < 36 && at + 2 * k + 2 <= |buf| && !ZeroUnit(buf, at, k)
      invariant 0 <= k <= 36 && |raw| == k && Decoding(buf, at, k, raw)
    {
      UnitsStep(raw, buf, at, k);
      raw, k := raw + [buf[at + 2 * k] % 128], k + 1;
    }
    inside := k == 36 || at + 2 * k + 2 <= |buf|;
    assert raw + [] == raw;
  }

  /** What is looked at of a used entry lies inside: its type, its two addresses, its name. */
  predicate EntryInside(buf: seq<byte>, at: nat) {
    at + 48 <= |buf| && NameInside(buf, at + 56, 0)
  }

  lemma WholeEntryInside(buf: seq<byte>, at: nat)
    requires at + ENTRY <= |buf|
    ensures EntryInside(buf, at)
  {
    NameFits(buf, at + 56, 0);
  }

  /** What reading an entry gives back. */
  function PartAt(buf: seq<byte>, at: nat, number: nat): Part
    requires EntryInside(buf, at)
  {
    WordBound(buf, at + 32);
    Part(number, Field(buf, at + 32, 8), (Field(buf, at + 40, 8) - Field(buf, at + 32, 8) + 1) % WORD, 0,
         buf[at..at + 16], CText(Units(buf, at + 56, 0)))
  }

  /** A name read back keeps at most 36 characters, seven bits of each. */
  function SevenBit(name: Name): Name {
    CText(seq(if |name| > 36 then 36 else |name|, k requires 0 <= k < |name| => name[k] % 128))
  }

  function Reread(p: Part, number: nat): Part {
    Part(number, p.start, p.count, 0, p.guid, SevenBit(p.name))
  }

  lemma {:induction false} UnitsOfName(buf: seq<byte>, at: nat, name: Name, k: nat)
    requires at + 72 <= |buf| && buf[at..at + 72] == NameUnits(name) && k <= 36 && k <= |name|
    ensures NameInside(buf, at, k) && Units(buf, at, k) == LowBits(name, k)
    decreases 36 - k
  {
    NameFits(buf, at, k);
    if k < 36 {
      UnitIs(buf, at, name, k);
      if k < |name| {
        UnitsOfName(buf, at, name, k + 1);
      }
    }
  }

  // Seven bits of each character from k on, up to the 36th.
  function LowBits(name: Name, k: nat): seq<byte>
    requires k <= |name|
    decreases |name| - k
  {
    if k == |name| || k >= 36 then [] else [name[k] % 128] + LowBits(name, k + 1)
  }

  lemma UnitIs(buf: seq<byte>, at: nat, name: Name, k: nat)
    requires at + 72 <= |buf| && buf[at..at + 72] == NameUnits(name) && k < 36 && k <= |name|
    ensures buf[at + 2 * k] == (if k < |name| then name[k] else 0) && buf[at + 2 * k + 1] == 0
    ensures ZeroUnit(buf, at, k) <==> k == |name|
  {
    assert buf[at + 2 * k] == buf[at..at + 72][2 * k] && buf[at + 2 * k + 1] == buf[at..at + 72][2 * k + 1];
    if k < |name| {
      assert name[k] in name;
    }
  }

  lemma {:induction false} LowBitsAre(name: Name, k: nat)
    requires k <= |name| && k <= 36
    ensures |LowBits(name, k)| == (if |name| > 36 then 36 else |name|) - k
    ensures forall i :: 0 <= i < |LowBits(name, k)| ==> LowBits(name, k)[i] == name[k + i] % 128
    decreases |name| - k
  {
    if k < |name| && k < 36 {
      var rest := LowBits(name, k + 1);
      LowBitsAre(name, k + 1);
      assert LowBits(name, k) == [name[k] % 128] + rest;
      assert forall i :: 1 <= i < 1 + |rest| ==>
          ([name[k] % 128] + rest)[i] == rest[i - 1] == name[k + 1 + (i - 1)] % 128;
    }
  }

  /** Reading an entry that was written gives the partition, its name shortened. */
  lemma EntryReadBack(p: Part, unique: Guid, buf: seq<byte>, at: nat, number: nat)
    requires at + ENTRY <= |buf| && buf[at..at + ENTRY] == EntryBytes(p, unique)
    ensures EntryInside(buf, at) && PartAt(buf, at, number) == Reread(p, number)
  {
    WholeEntryInside(buf, at);
    EntryFields(p, unique);
    Window(buf, at, EntryBytes(p, unique));
    NumbersReadBack(p, buf, at);
    NameReadBack(p.name, buf, at + 56);
  }

  lemma Window(buf: seq<byte>, at: nat, e: seq<byte>)
    requires |e| == ENTRY && at + ENTRY <= |buf| && buf[at..at + ENTRY] == e
    ensures buf[at..at + 16] == e[..16] && buf[at + 32..at + 32 + 8] == e[32..40]
    ensures buf[at + 40..at + 40 + 8] == e[40..48] && buf[at + 56..at + 56 + 72] == e[56..128]
  {
  }

  lemma NumbersReadBack(p: Part, buf: seq<byte>, at: nat)
    requires at + ENTRY <= |buf|
    requires buf[at + 32..at + 32 + 8] == U64(p.start) && buf[at + 40..at + 40 + 8] == U64(LastSector(p))
    ensures Field(buf, at + 32, 8) == p.start && (Field(buf, at + 40, 8) - Field(buf, at + 32, 8) + 1) % WORD == p.count
  {
    Powers();
    FieldIs(buf, at + 32, 8, p.start);
    FieldIs(buf, at + 40, 8, LastSector(p));
    CountBack(p.start, p.count);
  }

  lemma NameReadBack(name: Name, buf: seq<byte>, at: nat)
    requires at + 72 <= |buf| && buf[at..at + 72] == NameUnits(name)
    ensures NameInside(buf, at, 0) && CText(Units(buf, at, 0)) == SevenBit(name)
  {
    UnitsOfName(buf, at, name, 0);
    LowBitsAre(name, 0);
    assert Units(buf, at, 0) == seq(if |name| > 36 then 36 else |name|, k requires 0 <= k < |name| => name[k] % 128);
  }

  lemma EntryFields(p: Part, unique: Guid)
    ensures var e := EntryBytes(p, unique);
            e[..16] == p.guid && e[32..40] == U64(p.start) && e[40..48] == U64(LastSector(p)) &&
                e[56..128] == NameUnits(p.name)
  {
    Joined(p.guid, unique, U64(p.start), U64(LastSector(p)), U64(0), NameUnits(p.name));
  }

  lemma Joined(a: seq<byte>, b: seq<byte>, c: seq<byte>, d: seq<byte>, e: seq<byte>, f: seq<byte>)
    requires |a| == 16 && |b| == 16 && |c| == 8 && |d| == 8 && |e| == 8 && |f| == 72
    ensures var s := a + b + c + d + e + f;
            s[..16] == a && s[32..40] == c && s[40..48] == d && s[56..128] == f
  {
    var s := a + b + c + d + e + f;
    assert s[..16] == a;
    assert s[32..40] == c;
    assert s[40..48] == d;
    assert s[56..128] == f;
  }

  lemma CountBack(start: int, count: int)
    requires 0 <= start < WORD && 0 <= count < WORD
    ensures ((start + count - 1) % WORD - start + 1) % WORD == count
  {
  }

  // ------------------------------------------------------------------
  // The sectors of a table
  // ------------------------------------------------------------------

  /** One 16-byte slot of a master boot record. */
  function MbrEntry(kind: byte, start: int, count: int): (s: seq<byte>)
    requires 0 <= start < HALF && 0 <= count < HALF
    ensures |s| == 16
  {
    [0, 0, 0, 0, kind, 0, 0, 0] + U32(start) + U32(count)
  }

  /** The protective record: one slot of type EE over the whole disk. */
  function Protective(sectors: int): (s: seq<byte>)
    requires 1 <= sectors < WORD
    ensures |s| == SECTOR
  {
    Zeros(446) + MbrEntry(0xEE, 1, if sectors - 1 > HALF - 1 then HALF - 1 else sectors - 1) + Zeros(48) + U16(MBR_MARK)
  }

  datatype Header = Header(my: Lba, alternate: Lba, last: Lba, guid: Guid, entries: Lba, arraySum: uint32)

  /** The 92 bytes of a header (section 5.3.2 of the UEFI specification) with the given
      value in its checksum field. */
  function HeaderBytes(h: Header, sum: int): (s: seq<byte>)
    requires 0 <= sum < HALF
    ensures |s| == 92
  {
    U64(GPT_MARK) + U32(0x10000) + U32(92) + U32(sum) + U32(0) + U64(h.my)
    + U64(h.alternate) + (U64(34) + U64(h.last))
    + h.guid + U64(h.entries) + U32(SLOTS) + U32(ENTRY) + U32(h.arraySum as int)
  }

  // The checksum covers the header with a zero in the checksum field.
  function HeaderSector(h: Header, crc: seq<byte> -> uint32): (s: seq<byte>)
    ensures |s| == SECTOR
  {
    HeaderBytes(h, crc(HeaderBytes(h, 0)) as int) + Zeros(420)
  }

  // The fields a scan looks at.
  ghost predicate HeaderIs(s: seq<byte>, h: Header) {
    && |s| == SECTOR && Field(s, 0, 8) == GPT_MARK && Field(s, 32, 8) == h.alternate && s[56..72] == h.guid
    && Field(s, 72, 8) == h.entries && Field(s, 80, 4) == SLOTS && Field(s, 84, 4) == ENTRY
  }

  lemma HeaderFields(h: Header, crc: seq<byte> -> uint32)
    ensures HeaderIs(HeaderSector(h, crc), h)
  {
    var sum := crc(HeaderBytes(h, 0)) as int;
    var s := HeaderSector(h, crc);
    var head := U32(0x10000) + U32(92) + U32(sum) + U32(0) + U64(h.my);
    HeaderJoined(U64(GPT_MARK), U32(0x10000), U32(92), U32(sum), U32(0), U64(h.my), U64(h.alternate),
        U64(34) + U64(h.last),
                 h.guid, U64(h.entries), U32(SLOTS), U32(ENTRY), U32(h.arraySum as int), Zeros(420));
    Powers();
    FieldIs(s, 0, 8, GPT_MARK);
    FieldIs(s, 32, 8, h.alternate);
    FieldIs(s, 72, 8, h.entries);
    FieldIs(s, 80, 4, SLOTS);
    FieldIs(s, 84, 4, ENTRY);
  }

  lemma HeaderJoined(a: seq<byte>, b: seq<byte>, c: seq<byte>, d: seq<byte>, e: seq<byte>, f: seq<byte>, g: seq<byte>,
                     h: seq<byte>, i: seq<byte>, j: seq<byte>, k: seq<byte>, l: seq<byte>, m: seq<byte>, z: seq<byte>)
    requires |a| == 8 && |b| == 4 && |c| == 4 && |d| == 4 && |e| == 4 && |f| == 8 && |g| == 8 && |h| == 16 && |i| == 16
    requires |j| == 8 && |k| == 4 && |l| == 4 && |m| == 4
    ensures var s := a + b + c + d + e + f + g + h + i + j + k + l + m + z;
            s[0..0 + 8] == a && s[32..32 + 8] == g && s[56..72] == i && s[72..72 + 8] == j && s[80..80 + 4] == k &&
                s[84..84 + 4] == l
  {
    var low := a + b + c + d + e + f;
    var mid := low + g + h;
    var s := a + b + c + d + e + f + g + h + i + j + k + l + m + z;
    assert s[0..0 + 8] == a;
    assert s[32..32 + 8] == g;
    assert s[56..72] == i;
    assert s[72..72 + 8] == j;
    assert s[80..80 + 4] == k;
    assert s[84..84 + 4] == l;
  }

  ghost predicate AreEntries(s: seq<byte>, ps: seq<Part>, uniques: seq<Guid>)
    requires |uniques| == |ps| <= MAX_PARTS
  {
    SlotsAre(s, Slots(ps, uniques, |ps|))
  }

  method Put(buf: array<byte>, at: nat, d: seq<byte>)
    requires at + |d| <= buf.Length
    modifies buf
    ensures buf[at..at + |d|] == d
    ensures forall k :: 0 <= k < buf.Length && !(at <= k < at + |d|) ==> buf[k] == old(buf[k])
  {
    for i := 0 to |d|
      invariant forall k :: 0 <= k < buf.Length ==> buf[k] == if at <= k < at + i then d[k - at] else old(buf[k])
    {
      buf[at + i] := d[i];
    }
  }

  // The unique GUIDs are drawn by the caller.
  method FillEntries(ps: seq<Part>, uniques: seq<Guid>) returns (buf: array<byte>)
    requires |uniques| == |ps| <= MAX_PARTS
    ensures fresh(buf) && AreEntries(buf[..], ps, uniques)
  {
    buf := new byte[AREA](_ => 0);
    BlankSlots(buf[..]);
    for i := 0 to |ps|
      invariant SlotsAre(buf[..], Slots(ps, uniques, i))
    {
      PutEntry(buf, i, ps[i], uniques[i], Slots(ps, uniques, i));
    }
  }

  // The slots once the first n parts are in.
  ghost function Slots(ps: seq<Part>, uniques: seq<Guid>, n: nat): (r: seq<seq<byte>>)
    requires n <= |ps| == |uniques| <= MAX_PARTS
    ensures |r| == SLOTS && forall i: nat :: i < SLOTS ==>
            r[i] == if i < n then EntryBytes(ps[i], uniques[i]) else Zeros(ENTRY)
  {
    if n == 0 then seq(SLOTS, _ => Zeros(ENTRY))
        else Slots(ps, uniques, n - 1)[n - 1 := EntryBytes(ps[n - 1], uniques[n - 1])]
  }

  method PutEntry(buf: array<byte>, i: nat, p: Part, unique: Guid, ghost slots: seq<seq<byte>>)
    requires i < SLOTS && SlotsAre(buf[..], slots)
    modifies buf
    ensures SlotsAre(buf[..], slots[i := EntryBytes(p, unique)])
  {
    var units := EncodeName(p.name);
    var entry := p.guid + unique + U64(p.start) + U64(LastSector(p)) + U64(0) + units;
    ghost var was := buf[..];
    Put(buf, i * ENTRY, entry);
    SlotPut(was, buf[..], slots, i, entry);
  }

  ghost predicate SlotsAre(s: seq<byte>, slots: seq<seq<byte>>) {
    && |s| == AREA && |slots| == SLOTS
    && forall i: nat :: i < SLOTS ==> s[i * ENTRY..(i + 1) * ENTRY] == slots[i]
  }

  lemma BlankSlots(s: seq<byte>)
    requires |s| == AREA && forall k :: 0 <= k < AREA ==> s[k] == 0
    ensures SlotsAre(s, seq(SLOTS, _ => Zeros(ENTRY)))
  {
    forall i: nat | i < SLOTS
      ensures s[i * ENTRY..(i + 1) * ENTRY] == Zeros(ENTRY)
    {
    }
  }

  lemma SlotPut(was: seq<byte>, now: seq<byte>, slots: seq<seq<byte>>, i: nat, entry: seq<byte>)
    requires SlotsAre(was, slots) && |now| == AREA && i < SLOTS && |entry| == ENTRY
    requires now[i * ENTRY..(i + 1) * ENTRY] == entry
    requires forall k :: 0 <= k < AREA && !(i * ENTRY <= k < (i + 1) * ENTRY) ==> now[k] == was[k]
    ensures SlotsAre(now, slots[i := entry])
  {
    forall j: nat | j < SLOTS
      ensures now[j * ENTRY..(j + 1) * ENTRY] == slots[i := entry][j]
    {
      if j != i {
        assert now[j * ENTRY..(j + 1) * ENTRY] == was[j * ENTRY..(j + 1) * ENTRY];
      }
    }
  }
}
