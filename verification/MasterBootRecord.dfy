// A master boot record written and scanned again.
module MasterBootRecord {
  import opened Limbs
  import opened Bytes
  import opened PartitionTable
  import opened DiskLabel
  import opened LabelScan

  /** The last partition with number n, or -1. */
  function Owner(ps: seq<Part>, n: nat): (i: int)
    ensures -1 <= i < |ps| && (i >= 0 ==> ps[i].number == n && forall k :: i < k < |ps| ==> ps[k].number != n)
    ensures i < 0 ==> forall k :: 0 <= k < |ps| ==> ps[k].number != n
  {
    if ps == [] then -1
    else if ps[|ps| - 1].number == n then |ps| - 1
    else Owner(ps[..|ps| - 1], n)
  }

  // Starts and sizes are cut to 32 bits.
  function PartEntry(p: Part): (s: seq<byte>)
    ensures |s| == 16
  {
    MbrEntry(p.mbrType, p.start % HALF, p.count % HALF)
  }

  function SlotEntry(ps: seq<Part>, n: nat): (s: seq<byte>)
    ensures |s| == 16
  {
    if Owner(ps, n) < 0 then Zeros(16) else PartEntry(ps[Owner(ps, n)])
  }

  /** Boot code, the four slots, and the mark. */
  ghost predicate RecordIs(s: seq<byte>, boot: seq<byte>, ps: seq<Part>) {
    && |s| == SECTOR && |boot| == 446 && s[..446] == boot && s[510..512] == U16(MBR_MARK)
    && forall k: nat :: k < 4 ==> s[446 + 16 * k..462 + 16 * k] == SlotEntry(ps, k + 1)
  }

  // Partitions whose number is not 1 to 4 have no slot.
  method MakeRecord(boot: seq<byte>, ps: seq<Part>) returns (sec: array<byte>)
    requires |boot| == 446
    ensures fresh(sec) && RecordIs(sec[..], boot, ps)
  {
    sec := new byte[SECTOR](_ => 0);
    Put(sec, 0, boot);
    Put(sec, 510, U16(MBR_MARK));
    BlankRecord(sec[..], boot);
    for i := 0 to |ps|
      invariant RecordIs(sec[..], boot, ps[..i])
    {
      AddToRecord(sec, boot, ps[..i], ps[i]);
      assert ps[..i] + [ps[i]] == ps[..i + 1];
    }
    assert ps[..|ps|] == ps;
  }

  method AddToRecord(sec: array<byte>, ghost boot: seq<byte>, ghost ps: seq<Part>, p: Part)
    requires RecordIs(sec[..], boot, ps)
    modifies sec
    ensures RecordIs(sec[..], boot, ps + [p])
  {
    if 1 <= p.number <= 4 {
      PutSlot(sec, boot, ps, p);
    } else {
      SlotsUnchanged(ps, p);
    }
  }

  lemma BlankRecord(s: seq<byte>, boot: seq<byte>)
    requires |s| == SECTOR && |boot| == 446 && s[..446] == boot && s[510..512] == U16(MBR_MARK)
    requires forall k :: 446 <= k < 510 ==> s[k] == 0
    ensures RecordIs(s, boot, [])
  {
  }

  lemma SlotsUnchanged(ps: seq<Part>, p: Part)
    requires !(1 <= p.number <= 4)
    ensures forall n: nat :: 1 <= n <= 4 ==> SlotEntry(ps + [p], n) == SlotEntry(ps, n)
  {
    assert (ps + [p])[..|ps|] == ps;
  }

  method PutSlot(sec: array<byte>, ghost boot: seq<byte>, ghost ps: seq<Part>, p: Part)
    requires 1 <= p.number <= 4 && RecordIs(sec[..], boot, ps)
    modifies sec
    ensures RecordIs(sec[..], boot, ps + [p])
  {
    ghost var was := sec[..];
    Put(sec, 446 + 16 * (p.number - 1), PartEntry(p));
    SlotTaken(was, sec[..], boot, ps, p);
  }

  lemma SlotTaken(was: seq<byte>, now: seq<byte>, boot: seq<byte>, ps: seq<Part>, p: Part)
    requires 1 <= p.number <= 4 && RecordIs(was, boot, ps) && |now| == SECTOR
    requires var at := 446 + 16 * (p.number - 1);
             now[at..at + 16] == PartEntry(p) && forall k :: 0 <= k < SECTOR && !(at <= k < at + 16) ==>
                 now[k] == was[k]
    ensures RecordIs(now, boot, ps + [p])
  {
    assert (ps + [p])[..|ps|] == ps;
    forall k: nat | k < 4
      ensures now[446 + 16 * k..462 + 16 * k] == SlotEntry(ps + [p], k + 1)
    {
      if k + 1 == p.number {
        assert Owner(ps + [p], k + 1) == |ps|;
      } else {
        assert now[446 + 16 * k..462 + 16 * k] == was[446 + 16 * k..462 + 16 * k];
      }
    }
  }

  /** The partition that owns slot number n, as far as a record can tell. */
  function Kept(ps: seq<Part>, n: nat): seq<Part> {
    var i := Owner(ps, n);
    if i < 0 || ps[i].mbrType == 0 then [] else [Plain(ps[i])]
  }

  function Plain(p: Part): Part {
    Part(p.number, p.start % HALF, p.count % HALF, p.mbrType, Zeros(16), [])
  }

  function AllKept(ps: seq<Part>): seq<Part> {
    Kept(ps, 1) + Kept(ps, 2) + Kept(ps, 3) + Kept(ps, 4)
  }

  lemma SlotRead(s: seq<byte>, boot: seq<byte>, ps: seq<Part>, k: nat)
    requires RecordIs(s, boot, ps) && k < 4
    ensures MbrPart(s, k) == Kept(ps, k + 1)
  {
    var at := 446 + 16 * k;
    assert s[at..at + 16] == SlotEntry(ps, k + 1);
    var i := Owner(ps, k + 1);
    if i >= 0 {
      EntryRead(s, at, ps[i]);
    } else {
      assert s[at + 4] == s[at..at + 16][4];
    }
  }

  lemma EntryRead(s: seq<byte>, at: nat, p: Part)
    requires at + 16 <= |s| && s[at..at + 16] == PartEntry(p)
    ensures s[at + 4] == p.mbrType && Field(s, at + 8, 4) == p.start % HALF && Field(s, at + 12, 4) == p.count % HALF
  {
    var e := PartEntry(p);
    Thirds([0, 0, 0, 0, p.mbrType, 0, 0, 0], U32(p.start % HALF), U32(p.count % HALF));
    Within(s, at, e);
    Powers();
    FieldIs(s, at + 8, 4, p.start % HALF);
    FieldIs(s, at + 12, 4, p.count % HALF);
  }

  lemma Thirds(a: seq<byte>, b: seq<byte>, c: seq<byte>)
    requires |a| == 8 && |b| == 4 && |c| == 4
    ensures (a + b + c)[4] == a[4] && (a + b + c)[8..12] == b && (a + b + c)[12..16] == c
  {
  }

  lemma Within(s: seq<byte>, at: nat, e: seq<byte>)
    requires |e| == 16 && at + 16 <= |s| && s[at..at + 16] == e
    ensures s[at + 4] == e[4] && s[at + 8..at + 8 + 4] == e[8..12] && s[at + 12..at + 12 + 4] == e[12..16]
  {
    assert s[at + 4] == s[at..at + 16][4];
    Subslice(s, at, 16, 8, 12);
    Subslice(s, at, 16, 12, 16);
  }

  lemma Subslice(s: seq<byte>, at: nat, n: nat, a: nat, b: nat)
    requires at + n <= |s| && a <= b <= n
    ensures s[at..at + n][a..b] == s[at + a..at + b]
  {
    var x, y := s[at..at + n][a..b], s[at + a..at + b];
    assert |x| == |y| && forall k :: 0 <= k < b - a ==>
        x[k] == s[at..at + n][a + k] == s[at + (a + k)] == s[(at + a) + k] == y[k];
  }

  lemma AllKeptSmall(ps: seq<Part>)
    ensures Small(AllKept(ps))
  {
  }

  /** Scanning a written record gives back its partitions in slot order, unless sector 1
      carries a GPT header: then it is that GPT which is found. */
  lemma MbrRoundTrip(image: seq<byte>, boot: seq<byte>, ps: seq<Part>, size: Lba, was: Table)
    requires |image| >= SECTOR && RecordIs(image[0..SECTOR], boot, ps)
    ensures ScanOf(image, size, was).ok && (ScanOf(image, size, was).table.gpt <==> HasGpt(image))
    ensures Small(AllKept(ps))
    ensures !HasGpt(image) ==>
              ScanOf(image, size, was).table == Table(false, DiskSize(AllKept(ps), size), AllKept(ps), was.guid, boot)
  {
    SectorsAt(image, 0, 1);
    AllKeptSmall(ps);
    RecordRead(image[0..SECTOR], boot, ps);
  }

  lemma RecordRead(s: seq<byte>, boot: seq<byte>, ps: seq<Part>)
    requires RecordIs(s, boot, ps)
    ensures Field(s, 510, 2) == MBR_MARK && MbrParts(s) == AllKept(ps) && s[..446] == boot
  {
    MarkRead(s, boot, ps);
    SlotRead(s, boot, ps, 0);
    SlotRead(s, boot, ps, 1);
    SlotRead(s, boot, ps, 2);
    SlotRead(s, boot, ps, 3);
  }

  lemma MarkRead(s: seq<byte>, boot: seq<byte>, ps: seq<Part>)
    requires RecordIs(s, boot, ps)
    ensures Field(s, 510, 2) == MBR_MARK
  {
    Powers();
    FieldIs(s, 510, 2, MBR_MARK);
  }

  // The partitions a record can carry: distinct numbers 1 to 4, a type, 32-bit places.
  predicate Recordable(ps: seq<Part>) {
    && (forall i :: 0 <= i < |ps| ==> CarriedWhole(ps[i]))
    && (forall i, j :: 0 <= i < j < |ps| ==> ps[i].number != ps[j].number)
  }

  predicate CarriedWhole(p: Part) {
    1 <= p.number <= 4 && p.mbrType != 0 && p.start < HALF && p.count < HALF
  }

  // Without what only a GPT records.
  function Bare(p: Part): Part {
    p.(guid := Zeros(16), name := [])
  }

  /** Such partitions all come back, each once, ordered by slot. */
  lemma AllComeBack(ps: seq<Part>)
    requires Recordable(ps)
    ensures forall p: Part :: p in AllKept(ps) <==> exists i :: 0 <= i < |ps| && p == Bare(ps[i])
    ensures forall i, j :: 0 <= i < j < |AllKept(ps)| ==> AllKept(ps)[i].number < AllKept(ps)[j].number
  {
    forall p: Part
      ensures p in AllKept(ps) <==> exists i :: 0 <= i < |ps| && p == Bare(ps[i])
    {
      KeptComeFrom(ps, 1, p);
      KeptComeFrom(ps, 2, p);
      KeptComeFrom(ps, 3, p);
      KeptComeFrom(ps, 4, p);
      if i :| 0 <= i < |ps| && p == Bare(ps[i]) {
        KeptThere(ps, i);
      }
    }
    Ordered(Kept(ps, 1), Kept(ps, 2), Kept(ps, 3), Kept(ps, 4));
  }

  lemma KeptComeFrom(ps: seq<Part>, n: nat, p: Part)
    requires Recordable(ps)
    ensures p in Kept(ps, n) ==> exists i :: 0 <= i < |ps| && p == Bare(ps[i])
  {
    if p in Kept(ps, n) {
      var i := Owner(ps, n);
      assert CarriedWhole(ps[i]) && p == Bare(ps[i]);
    }
  }

  lemma KeptThere(ps: seq<Part>, i: nat)
    requires Recordable(ps) && i < |ps|
    ensures 1 <= ps[i].number <= 4 && Kept(ps, ps[i].number) == [Bare(ps[i])]
  {
    assert CarriedWhole(ps[i]);
    assert Owner(ps, ps[i].number) == i;
  }

  lemma Ordered(a: seq<Part>, b: seq<Part>, c: seq<Part>, d: seq<Part>)
    requires |a| <= 1 && |b| <= 1 && |c| <= 1 && |d| <= 1
    requires (a != [] ==> a[0].number == 1) && (b != [] ==> b[0].number == 2)
    requires (c != [] ==> c[0].number == 3) && (d != [] ==> d[0].number == 4)
    ensures forall i, j :: 0 <= i < j < |a + b + c + d| ==> (a + b + c + d)[i].number < (a + b + c + d)[j].number
  {
  }
}
