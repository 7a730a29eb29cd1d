// The partition table being edited: sixteen slots, of which the first
// partCount are in use, and the actions on them.
module Partitions {
  import opened SizeInput

  const MAX_PARTS: nat := 16
  const ALIGN: int := 2048

  datatype Part = Part(valid: bool, number: int, start: int, count: int, mbrType: int, gptType: int)

  const EmptySlot: Part := Part(false, 0, 0, 0, 0, 0)

  predicate Inside(s: int, p: Part) {
    p.start <= s < p.start + p.count
  }

  predicate InSome(s: int, ps: seq<Part>) {
    exists i :: 0 <= i < |ps| && Inside(s, ps[i])
  }

  predicate Disjoint(p: Part, q: Part) {
    p.start + p.count <= q.start || q.start + q.count <= p.start
  }

  /** Non-empty, in bounds, pairwise disjoint. */
  predicate WellPlaced(ps: seq<Part>, limit: int) {
    && (forall i :: 0 <= i < |ps| ==>
          ps[i].valid && 0 <= ps[i].start && 0 < ps[i].count && ps[i].start + ps[i].count <= limit)
    && (forall i, j :: 0 <= i < j < |ps| ==> Disjoint(ps[i], ps[j]))
  }

  predicate DistinctNumbers(ps: seq<Part>) {
    && (forall i :: 0 <= i < |ps| ==> ps[i].number >= 1)
    && (forall i, j :: 0 <= i < j < |ps| ==> ps[i].number != ps[j].number)
  }

  predicate LowNumbers(ps: seq<Part>) {
    forall i :: 0 <= i < |ps| ==> ps[i].number <= 4
  }

  predicate HasNumber(ps: seq<Part>, n: int) {
    exists i :: 0 <= i < |ps| && ps[i].number == n
  }

  /** How many partitions end after s. */
  function EndingAfter(ps: seq<Part>, s: int): nat {
    if ps == [] then 0
    else EndingAfter(ps[..|ps| - 1], s) + (if ps[|ps| - 1].start + ps[|ps| - 1].count > s then 1 else 0)
  }

  lemma {:induction false} FewerEndAfter(ps: seq<Part>, s: int, t: int)
    requires s <= t
    ensures EndingAfter(ps, t) <= EndingAfter(ps, s)
    ensures (exists i :: 0 <= i < |ps| && s < ps[i].start + ps[i].count <= t) ==>
            EndingAfter(ps, t) < EndingAfter(ps, s)
  {
    if ps != [] {
      FewerEndAfter(ps[..|ps| - 1], s, t);
      if i :| 0 <= i < |ps| && s < ps[i].start + ps[i].count <= t {
        if i < |ps| - 1 {
          assert ps[..|ps| - 1][i] == ps[i];
        }
      }
    }
  }

  /** Every aligned sector from 2048 up to s is taken. */
  ghost predicate AllTaken(ps: seq<Part>, s: int) {
    forall m :: 1 <= m && ALIGN * m < s ==> InSome(ALIGN * m, ps)
  }

  /** The first sector offered: the least multiple of 2048, at least 2048, in no partition. */
  ghost predicate Offer(ps: seq<Part>, s: int) {
    s >= ALIGN && s % ALIGN == 0 && !InSome(s, ps) && AllTaken(ps, s)
  }

  lemma OfferIsUnique(ps: seq<Part>, s: int, t: int)
    requires Offer(ps, s) && Offer(ps, t)
    ensures s == t
  {
    assert s == ALIGN * (s / ALIGN) && t == ALIGN * (t / ALIGN);
  }

  /** There always is one: beyond the end of every partition nothing is taken. */
  lemma OfferExists(ps: seq<Part>, s: int) returns (offer: int)
    requires s >= ALIGN && s % ALIGN == 0 && AllTaken(ps, s)
    ensures Offer(ps, offer)
    decreases EndingAfter(ps, s)
  {
    if InSome(s, ps) {
      var i :| 0 <= i < |ps| && Inside(s, ps[i]);
      Advance(ps, s, i);
      offer := OfferExists(ps, AlignUp(ps[i].start + ps[i].count));
    } else {
      offer := s;
    }
  }

  function AlignUp(s: int): int {
    if s % ALIGN != 0 then (s / ALIGN + 1) * ALIGN else s
  }

  /** Rounded down to whole 1 MiB units, but never to nothing. */
  function RoundSize(n: nat): nat {
    if n % ALIGN != 0 then (if n < ALIGN then ALIGN else n / ALIGN * ALIGN) else n
  }

  // ------------------------------------------------------------------
  // What an action does to the table
  // ------------------------------------------------------------------

  datatype State = State(ps: seq<Part>, gpt: bool, sectors: int, sel: int)

  /** One past the last sector a partition may use. */
  function LimitOf(gpt: bool, sectors: int): int {
    if gpt && sectors > 34 then sectors - 34 else sectors
  }

  predicate RoomForOne(s: State) {
    (s.gpt || |s.ps| < 4) && |s.ps| < MAX_PARTS
  }

  function FreeFrom(s: State, start: int): nat {
    MaxFrom(s.ps, LimitOf(s.gpt, s.sectors), start)
  }

  /** The lowest free MBR number, or one more than the greatest GPT number. */
  predicate NumberFor(ps: seq<Part>, gpt: bool, n: int) {
    && n >= 1 && !HasNumber(ps, n)
    && if gpt then (n == 1 || HasNumber(ps, n - 1)) && forall i :: 0 <= i < |ps| ==> ps[i].number < n
       else n <= 4 && forall k :: 1 <= k < n ==> HasNumber(ps, k)
  }

  /** A new last partition, selected, with the next number and the default type. */
  predicate CreatedAt(s: State, start: int, size: string, t: State)
  {
    && |t.ps| == |s.ps| + 1 && NumberFor(s.ps, s.gpt, t.ps[|s.ps|].number)
    && t == s.(ps := s.ps + [Part(true, t.ps[|s.ps|].number, start, RoundSize(ParseSize(size, FreeFrom(s, start))),
                                  if s.gpt then 0 else 0x83, if s.gpt then 1 else 0)],
               sel := |s.ps|)
  }

  // The first sector typed; an empty answer takes the offer.
  function FirstSector(first: string, offer: int): int {
    if first != "" then Strtoull(first) else offer
  }

  /** A partition is made when something is free at the offered sector and the size at the
      chosen one is not zero; the table then stays well placed iff that sector is free and
      at least 2048 sectors are free from it. */
  predicate MadeAt(s: State, offer: int, first: string, size: string, created: bool, t: State, placed: bool)
  {
    var start := FirstSector(first, offer);
    && (created <==> FreeFrom(s, offer) > 0 && ParseSize(size, FreeFrom(s, start)) > 0)
    && (if created then CreatedAt(s, start, size, t) else t == s)
    && (placed <==> (created ==> !InSome(start, s.ps) && FreeFrom(s, start) >= ALIGN))
  }

  // A disk of unknown size takes the size typed.
  function Sized(s: State, diskSize: int): State {
    if RoomForOne(s) && s.sectors == 0 then s.(sectors := diskSize) else s
  }

  function Removed(s: State): State
    requires 0 <= s.sel < |s.ps|
  {
    s.(ps := s.ps[..s.sel] + s.ps[s.sel + 1..], sel := if s.sel == |s.ps| - 1 && s.sel > 0 then s.sel - 1 else s.sel)
  }

  /** The size typed, in whole MiB, but never more than is free. */
  function Resized(s: State, size: string): State
    requires 0 <= s.sel < |s.ps|
  {
    var max := FreeFrom(s, s.ps[s.sel].start);
    var n := ParseSize(size, max);
    if n == 0 || size == "" then s
    else s.(ps := s.ps[s.sel := s.ps[s.sel].(count := if RoundSize(n) > max then max else RoundSize(n))])
  }

  function Retyped(s: State, t: int): State
    requires 0 <= s.sel < |s.ps|
  {
    s.(ps := s.ps[s.sel := if s.gpt then s.ps[s.sel].(gptType := t) else s.ps[s.sel].(mbrType := t)])
  }

  /** A new label is empty; over partitions or another kind of label it needs a yes. */
  function Relabelled(s: State, gpt: bool, confirmed: bool, diskSize: int): State {
    var sectors := if gpt && s.sectors == 0 then diskSize else s.sectors;
    if ((s.ps != [] || s.gpt != gpt) && !confirmed) || (gpt && sectors == 0) then s else State([], gpt, sectors, 0)
  }

  ghost predicate Step(s: State, a: Action, t: State)
    requires 0 <= s.sel
  {
    match a
    case Create(size) =>
      forall start :: Offer(s.ps, start) ==>
        if RoomForOne(s) && ParseSize(size, FreeFrom(s, start)) > 0 then CreatedAt(s, start, size, t) else t == s
    case Remove(confirmed) => t == if confirmed && s.sel < |s.ps| then Removed(s) else s
    case ChangeSize(size) => t == if s.sel < |s.ps| then Resized(s, size) else s
    case ChangeType(kind) => t == if s.sel < |s.ps| then Retyped(s, kind) else s
    case Label(gpt, confirmed) => t == Relabelled(s, gpt, confirmed, 0)
    case Select(k) => t == s.(sel := k)
  }

  class Disk {
    const parts: array<Part>
    var partCount: nat
    var isGpt: bool
    var diskSectors: int
    var selPart: int
    var modified: bool

    function Table(): seq<Part>
      reads this, parts
      requires partCount <= parts.Length
    {
      parts[..partCount]
    }

    function Limit(): int
      reads this
    {
      LimitOf(isGpt, diskSectors)
    }

    function Value(): State
      reads this, parts
      requires partCount <= parts.Length
    {
      State(Table(), isGpt, diskSectors, selPart)
    }

    predicate Shape()
      reads this, parts
    {
      && parts.Length == MAX_PARTS && partCount <= MAX_PARTS && 0 <= selPart
      && 0 <= diskSectors < WORD - ALIGN
      && (!isGpt ==> partCount <= 4 && LowNumbers(Table()))
      && DistinctNumbers(Table())
    }

    /** The invariant of the table. */
    predicate Valid()
      reads this, parts
    {
      Shape() && WellPlaced(Table(), Limit())
    }

    constructor (sectors: int, gpt: bool)
      requires 0 <= sectors < WORD - ALIGN
      ensures Valid() && Value() == State([], gpt, sectors, 0) && fresh(parts)
    {
      parts := new Part[MAX_PARTS](_ => EmptySlot);
      partCount, isGpt, diskSectors, selPart, modified := 0, gpt, sectors, 0, false;
    }

    /** The least multiple of 2048, at least 2048, that lies in no partition. */
    method FindFreeStart() returns (start: int)
      requires Valid()
      ensures Offer(Table(), start) && start < WORD
    {
      ghost var ps := Table();
      start := ALIGN;
      var overlap := true;
      while overlap
        invariant ALIGN <= start && start % ALIGN == 0 && (start == ALIGN || start < Limit() + ALIGN)
        invariant AllTaken(ps, start)
        invariant !overlap ==> !InSome(start, ps)
        decreases EndingAfter(ps, start), overlap
      {
        overlap := false;
        var i := 0;
        while i < partCount && !overlap
          invariant 0 <= i <= partCount && !overlap
          invariant forall k :: 0 <= k < i ==> !Inside(start, ps[k])
        {
          if parts[i].valid && start >= parts[i].start && start < parts[i].start + parts[i].count {
            break;
          }
          i := i + 1;
        }
        if i < partCount {
          overlap := true;
          Advance(ps, start, i);
          start := AlignUp(parts[i].start + parts[i].count);
        }
      }
    }

    /** As far as the next partition that starts after `start`, or the limit. */
    method FindMaxSectors(start: int) returns (max: nat)
      requires Shape() && 0 <= start
      ensures max == MaxFrom(Table(), Limit(), start)
    {
      var nearest := Limit();
      for i := 0 to partCount
        invariant nearest == Nearest(parts[..i], Limit(), start)
      {
        assert parts[..i + 1][..i] == parts[..i];
        if parts[i].valid && parts[i].start > start && parts[i].start < nearest {
          nearest := parts[i].start;
        }
      }
      max := if nearest <= start then 0 else nearest - start;
    }

    // 0 when all four MBR numbers are taken.
    method NextNumber() returns (next: int)
      requires Shape()
      ensures next == 0 || NumberFor(Table(), isGpt, next)
      ensures next == 0 <==> !isGpt && forall k :: 1 <= k <= 4 ==> HasNumber(Table(), k)
    {
      if isGpt {
        next := 1;
        for i := 0 to partCount
          invariant next >= 1 && forall k :: 0 <= k < i ==> parts[k].number < next
          invariant next == 1 || HasNumber(Table(), next - 1)
        {
          if parts[i].number >= next {
            next := parts[i].number + 1;
            assert Table()[i].number == next - 1;
          }
        }
        return;
      }
      var used := new bool[4](_ => false);
      for i := 0 to partCount
        modifies used
        invariant forall k :: 0 <= k < 4 ==> (used[k] <==> HasNumber(parts[..i], k + 1))
      {
        var k := parts[i].number - 1;
        assert parts[..i + 1] == parts[..i] + [parts[i]];
        NumberAppended(parts[..i], parts[i]);
        if 0 <= k < 4 {
          used[k] := true;
        }
      }
      next := 0;
      for k := 0 to 4
        invariant next == 0 && forall m :: 1 <= m <= k ==> HasNumber(Table(), m)
      {
        if !used[k] {
          return k + 1;
        }
        assert HasNumber(Table(), k + 1);
      }
    }

    method Append(p: Part)
      requires Shape() && HasSlot() && NumberFor(Table(), isGpt, p.number)
      modifies this`partCount, this`modified, this`selPart, parts
      ensures Shape() && modified
      ensures Value() == old(Value()).(ps := old(Table()) + [p], sel := |old(Table())|)
    {
      NumbersStayDistinct(Table(), p);
      parts[partCount] := p;
      partCount := partCount + 1;
      modified := true;
      selPart := partCount - 1;
    }

    /** A new partition at a given start. The table stays well placed iff the start is
        free and at least 2048 sectors are free from it. */
    method NewAt(start: int, size: string) returns (created: bool)
      requires Valid() && HasSlot() && 0 <= start
      modifies this`partCount, this`modified, this`selPart, parts
      ensures Shape()
      ensures created <==> ParseSize(size, FreeFrom(old(Value()), start)) > 0
      ensures if created then CreatedAt(old(Value()), start, size, Value()) else Value() == old(Value())
      ensures Valid() <==> (created ==> !InSome(start, old(Table())) && FreeFrom(old(Value()), start) >= ALIGN)
    {
      ghost var s := Value();
      var max := FindMaxSectors(start);
      var sectors := ParseSize(size, max);
      if sectors == 0 {
        return false;
      }
      sectors := RoundSize(sectors);
      var next := NextNumber();
      FourNumbers(Table());
      if next == 0 {
        return false;
      }
      var p := Part(true, next, start, sectors, if isGpt then 0 else 0x83, if isGpt then 1 else 0);
      NewIsPlaced(s, start, size, p);
      Append(p);
      created := true;
    }

    /** A new partition at the offered or the typed first sector, when there is a slot
        and room.  At the offered sector, which is always free, the table stays well
        placed iff at least 2048 sectors are free from it. */
    method New(diskSize: int, first: string, size: string) returns (created: bool)
      requires Valid() && 0 <= diskSize < WORD - ALIGN
      modifies this, parts
      ensures Shape()
      ensures var s := Sized(old(Value()), diskSize);
              if RoomForOne(s) && s.sectors > 0
              then forall offer :: Offer(s.ps, offer) ==> MadeAt(s, offer, first, size, created, Value(), Valid())
              else !created && Value() == s && Valid()
    {
      if !HasSlot() {
        return false;
      }
      if diskSectors == 0 {
        diskSectors := diskSize;
        if diskSectors == 0 {
          return false;
        }
      }
      created := NewHere(first, size);
    }

    // Once there is a slot and the disk has a size.
    method NewHere(first: string, size: string) returns (created: bool)
      requires Valid() && HasSlot() && diskSectors > 0
      modifies this`partCount, this`modified, this`selPart, parts
      ensures Shape()
      ensures forall offer :: Offer(old(Table()), offer) ==>
              MadeAt(old(Value()), offer, first, size, created, Value(), Valid())
    {
      var start := FindFreeStart();
      forall offer | Offer(Table(), offer)
        ensures offer == start
      {
        OfferIsUnique(Table(), offer, start);
      }
      var max := FindMaxSectors(start);
      if max == 0 {
        return false;
      }
      created := NewAt(FirstSector(first, start), size);
    }

    predicate HasSlot()
      reads this, parts
      requires partCount <= parts.Length
    {
      RoomForOne(Value())
    }

    /** Removes the selected partition; the others keep their order. */
    method Delete(confirmed: bool)
      requires Valid()
      modifies this`partCount, this`modified, this`selPart, parts
      ensures Valid()
      ensures Value() == if confirmed && old(selPart < partCount) then Removed(old(Value())) else old(Value())
    {
      if partCount == 0 || selPart >= partCount || !confirmed {
        return;
      }
      RemoveSelected();
      modified := true;
      if selPart >= partCount && selPart > 0 {
        selPart := partCount - 1;
      }
    }

    method RemoveSelected()
      requires Valid() && selPart < partCount
      modifies this`partCount, parts
      ensures Valid() && Table() == old(Table()[..selPart] + Table()[selPart + 1..])
    {
      DeleteKeepsPlacement(Table(), Limit(), selPart);
      CloseGap(selPart);
    }

    // Shifts the slots after idx down by one and clears the last.
    method CloseGap(idx: nat)
      requires parts.Length == MAX_PARTS && idx < partCount <= MAX_PARTS
      modifies this`partCount, parts
      ensures partCount == old(partCount) - 1
      ensures Table() == old(Table()[..idx] + Table()[idx + 1..])
    {
      ghost var ps := Table();
      var n := partCount;
      for j := idx to n - 1
        modifies parts
        invariant forall k :: 0 <= k < idx ==> parts[k] == ps[k]
        invariant forall k :: idx <= k < j ==> parts[k] == ps[k + 1]
        invariant forall k :: j <= k < n ==> parts[k] == ps[k]
      {
        parts[j] := parts[j + 1];
      }
      parts[n - 1] := EmptySlot;
      partCount := n - 1;
    }

    /** Changes the size of the selected partition and nothing else; the size is
        clamped to what is free, so the table always stays well placed. */
    method Resize(size: string)
      requires Valid()
      modifies this`modified, parts
      ensures Valid() && Value() == if selPart < partCount then Resized(old(Value()), size) else old(Value())
    {
      if partCount == 0 || selPart >= partCount {
        return;
      }
      var max := FindMaxSectors(parts[selPart].start);
      if max == 0 || size == "" {
        return;
      }
      var sectors := ParseSize(size, max);
      if sectors == 0 {
        return;
      }
      sectors := RoundSize(sectors);
      if sectors > max {
        sectors := max;
      }
      ResizeKeepsPlacement(Table(), Limit(), selPart, sectors);
      SetSlot(parts[selPart].(count := sectors));
    }

    // A new type code or type GUID for the selected partition.
    method SetType(t: int)
      requires Valid()
      modifies this`modified, parts
      ensures Valid() && Value() == if selPart < partCount then Retyped(old(Value()), t) else old(Value())
    {
      if selPart >= partCount {
        return;
      }
      var p := parts[selPart];
      SetSlot(if isGpt then p.(gptType := t) else p.(mbrType := t));
    }

    // Rewrites the selected slot, keeping its number.
    method SetSlot(p: Part)
      requires Shape() && selPart < partCount && p.number == parts[selPart].number
      modifies this`modified, parts
      ensures Shape() && Table() == old(Table())[selPart := p]
    {
      ghost var ps := Table();
      parts[selPart] := p;
      modified := true;
      assert Table() == ps[selPart := p];
    }

    // A new empty label.
    method NewLabel(gpt: bool, confirmed: bool, diskSize: int)
      requires Valid() && 0 <= diskSize < WORD - ALIGN
      modifies this, parts
      ensures Valid() && Value() == Relabelled(old(Value()), gpt, confirmed, diskSize)
    {
      if (partCount > 0 || isGpt != gpt) && !confirmed {
        return;
      }
      if gpt && diskSectors == 0 {
        diskSectors := diskSize;
        if diskSectors == 0 {
          return;
        }
      }
      isGpt, partCount, modified, selPart := gpt, 0, true, 0;
      for k := 0 to parts.Length
        modifies parts
      {
        parts[k] := EmptySlot;
      }
    }

    /** At least 2048 sectors, or none, are free from the sector New would offer. */
    ghost predicate RoomForNew()
      reads this, parts
      requires partCount <= parts.Length
    {
      forall s :: Offer(Table(), s) ==> MaxFrom(Table(), Limit(), s) == 0 || MaxFrom(Table(), Limit(), s) >= ALIGN
    }

    method CheckRoom() returns (room: bool)
      requires Valid()
      ensures room <==> RoomForNew()
    {
      var start := FindFreeStart();
      var max := FindMaxSectors(start);
      room := max == 0 || max >= ALIGN;
      if room {
        forall s | Offer(Table(), s)
          ensures s == start
        {
          OfferIsUnique(Table(), s, start);
        }
      }
    }

    method Create(size: string)
      requires Valid() && diskSectors > 0 && RoomForNew()
      modifies this, parts
      ensures Valid() && diskSectors > 0 && Step(old(Value()), Action.Create(size), Value())
    {
      ghost var s := Value();
      ghost var offer := OfferExists(s.ps, ALIGN);
      var created := New(0, "", size);
      assert RoomForOne(s) ==> MadeAt(s, offer, "", size, created, Value(), Valid());
    }

    method Perform(a: Action)
      requires Valid() && diskSectors > 0 && (a.Create? ==> RoomForNew())
      modifies this, parts
      ensures Valid() && diskSectors > 0 && Step(old(Value()), a, Value())
    {
      match a
      case Create(size) => Create(size);
      case Remove(confirmed) => Delete(confirmed);
      case ChangeSize(size) => Resize(size);
      case ChangeType(t) => SetType(t);
      case Label(gpt, confirmed) => NewLabel(gpt, confirmed, 0);
      case Select(k) => selPart := k;
    }

    /** Every sequence of actions keeps the table well placed and its numbers apart,
        as long as no New is made where some but less than 1 MiB is free. */
    method Run(actions: seq<Action>) returns (done: nat, ghost trace: seq<State>)
      requires Valid() && diskSectors > 0
      modifies this, parts
      ensures Valid() && done <= |actions|
      ensures done < |actions| ==> actions[done].Create? && !RoomForNew()
      ensures |trace| == done + 1 && trace[0] == old(Value()) && trace[done] == Value()
      ensures forall k :: 0 <= k < done ==> 0 <= trace[k].sel && Step(trace[k], actions[k], trace[k + 1])
    {
      done, trace := 0, [Value()];
      while done < |actions|
        invariant Valid() && diskSectors > 0 && done <= |actions|
        invariant |trace| == done + 1 && trace[0] == old(Value()) && trace[done] == Value()
        invariant forall k :: 0 <= k < done ==> 0 <= trace[k].sel && Step(trace[k], actions[k], trace[k + 1])
      {
        if actions[done].Create? {
          var room := CheckRoom();
          if !room {
            return;
          }
        }
        Perform(actions[done]);
        trace := trace + [Value()];
        done := done + 1;
      }
    }
  }

  datatype Action =
    | Create(size: string)
    | Remove(confirmed: bool)
    | ChangeSize(size: string)
    | ChangeType(t: int)
    | Label(gpt: bool, confirmed: bool)
    | Select(k: nat)

  // ------------------------------------------------------------------
  // Placement
  // ------------------------------------------------------------------

  lemma {:induction false} NearestMeaning(ps: seq<Part>, limit: int, s: int)
    requires forall i :: 0 <= i < |ps| ==> ps[i].valid
    ensures Nearest(ps, limit, s) <= limit
    ensures forall i :: 0 <= i < |ps| && ps[i].start > s ==> Nearest(ps, limit, s) <= ps[i].start
    ensures Nearest(ps, limit, s) == limit || exists i :: 0 <= i < |ps| && ps[i].start == Nearest(ps, limit, s) > s
  {
    if ps != [] {
      var front := ps[..|ps| - 1];
      NearestMeaning(front, limit, s);
      var n := Nearest(front, limit, s);
      assert forall i :: 0 <= i < |front| ==> front[i] == ps[i];
      if n != limit {
        var i :| 0 <= i < |front| && front[i].start == n > s;
        assert ps[i].start == n;
      }
      assert ps[|ps| - 1].start == ps[|ps| - 1].start;
    }
  }

  /** A further partition fits iff its start is free and it ends before the next one. */
  lemma AddKeepsPlacement(ps: seq<Part>, limit: int, p: Part)
    requires WellPlaced(ps, limit) && p.valid && 0 <= p.start && 0 < p.count
    ensures WellPlaced(ps + [p], limit) <==> !InSome(p.start, ps) && p.count <= MaxFrom(ps, limit, p.start)
  {
    NearestMeaning(ps, limit, p.start);
    var more := ps + [p];
    var n := Nearest(ps, limit, p.start);
    if WellPlaced(more, limit) {
      forall i | 0 <= i < |ps|
        ensures !Inside(p.start, ps[i]) && (ps[i].start > p.start ==> p.start + p.count <= ps[i].start)
      {
        assert Disjoint(more[i], more[|ps|]);
      }
      assert more[|ps|] == p;
    }
    if !InSome(p.start, ps) && p.count <= MaxFrom(ps, limit, p.start) {
      forall i, j | 0 <= i < j < |more|
        ensures Disjoint(more[i], more[j])
      {
        if j == |ps| {
          assert !Inside(p.start, ps[i]);
        }
      }
    }
  }

  lemma NumberAppended(ps: seq<Part>, p: Part)
    ensures forall n :: HasNumber(ps + [p], n) <==> HasNumber(ps, n) || p.number == n
  {
    forall n
      ensures HasNumber(ps + [p], n) <==> HasNumber(ps, n) || p.number == n
    {
      if HasNumber(ps, n) {
        var i :| 0 <= i < |ps| && ps[i].number == n;
        assert (ps + [p])[i].number == n;
      }
      if p.number == n {
        assert (ps + [p])[|ps|].number == n;
      }
    }
  }

  /** A partition of the size asked, at a start, leaves the table well placed iff the start
      is free and at least 2048 sectors are free from it. */
  lemma NewIsPlaced(s: State, start: int, size: string, p: Part)
    requires WellPlaced(s.ps, LimitOf(s.gpt, s.sectors)) && DistinctNumbers(s.ps) && 0 <= start
    requires ParseSize(size, FreeFrom(s, start)) > 0 && NumberFor(s.ps, s.gpt, p.number)
    requires p.valid && p.start == start && p.count == RoundSize(ParseSize(size, FreeFrom(s, start)))
    ensures DistinctNumbers(s.ps + [p])
    ensures WellPlaced(s.ps + [p], LimitOf(s.gpt, s.sectors)) <==> !InSome(start, s.ps) && FreeFrom(s, start) >= ALIGN
  {
    RoundingFits(ParseSize(size, FreeFrom(s, start)), FreeFrom(s, start));
    AddKeepsPlacement(s.ps, LimitOf(s.gpt, s.sectors), p);
    NumbersStayDistinct(s.ps, p);
  }

  /** Four numbers are taken by four partitions. */
  lemma FourNumbers(ps: seq<Part>)
    ensures (forall k :: 1 <= k <= 4 ==> HasNumber(ps, k)) ==> |ps| >= 4
  {
    if forall k :: 1 <= k <= 4 ==> HasNumber(ps, k) {
      assert HasNumber(ps, 1) && HasNumber(ps, 2) && HasNumber(ps, 3) && HasNumber(ps, 4);
      var a :| 0 <= a < |ps| && ps[a].number == 1;
      var b :| 0 <= b < |ps| && ps[b].number == 2;
      var c :| 0 <= c < |ps| && ps[c].number == 3;
      var d :| 0 <= d < |ps| && ps[d].number == 4;
      assert a != b && a != c && a != d && b != c && b != d && c != d;
    }
  }

  lemma NumbersStayDistinct(ps: seq<Part>, p: Part)
    requires DistinctNumbers(ps) && p.number >= 1 && !HasNumber(ps, p.number)
    ensures DistinctNumbers(ps + [p])
  {
  }

  /** Rounding keeps a size within the free space unless that is under 2048 sectors. */
  lemma RoundingFits(n: nat, max: nat)
    requires 0 < n <= max
    ensures RoundSize(n) > 0 && (RoundSize(n) <= max <==> max >= ALIGN)
  {
  }

  /** Where less is free the rounding runs over: here 952 sectors are free at the
      offered sector and the new partition takes 2048. */
  lemma SmallGapOverlaps()
    ensures var q := Part(true, 1, 3000, 1000, 0x83, 0);
            var p := Part(true, 2, 2048, RoundSize(ParseSize("", 952)), 0x83, 0);
            && WellPlaced([q], 10000) && Offer([q], 2048) && MaxFrom([q], 10000, 2048) == 952
            && !WellPlaced([q, p], 10000)
  {
    var q := Part(true, 1, 3000, 1000, 0x83, 0);
    assert [q][..0] == [];
    assert Nearest([], 10000, 2048) == 10000;
    assert !Disjoint([q, Part(true, 2, 2048, 2048, 0x83, 0)][0], [q, Part(true, 2, 2048, 2048, 0x83, 0)][1]);
  }

  lemma DeleteKeepsPlacement(ps: seq<Part>, limit: int, idx: int)
    requires WellPlaced(ps, limit) && DistinctNumbers(ps) && 0 <= idx < |ps|
    ensures var less := ps[..idx] + ps[idx + 1..];
            WellPlaced(less, limit) && DistinctNumbers(less) && (LowNumbers(ps) ==> LowNumbers(less))
  {
    var less := ps[..idx] + ps[idx + 1..];
    assert forall i :: 0 <= i < |less| ==> less[i] == ps[if i < idx then i else i + 1];
  }

  lemma ResizeKeepsPlacement(ps: seq<Part>, limit: int, idx: nat, count: int)
    requires WellPlaced(ps, limit) && idx < |ps| && 0 < count
    ensures WellPlaced(ps[idx := ps[idx].(count := count)], limit) <==> count <= MaxFrom(ps, limit, ps[idx].start)
  {
    var p := ps[idx].(count := count);
    var changed := ps[idx := p];
    NearestMeaning(ps, limit, p.start);
    forall i | 0 <= i < |ps| && i != idx
      ensures Disjoint(ps[i], ps[idx])
    {
      if idx < i {
        assert Disjoint(ps[idx], ps[i]);
      }
    }
    assert ps[idx].start + ps[idx].count <= limit;
    if WellPlaced(changed, limit) {
      forall i | 0 <= i < |ps| && ps[i].start > p.start
        ensures p.start + p.count <= ps[i].start
      {
        assert if i < idx then Disjoint(changed[i], changed[idx]) else Disjoint(changed[idx], changed[i]);
      }
      assert changed[idx] == p;
    }
    if count <= MaxFrom(ps, limit, p.start) {
      forall i, j | 0 <= i < j < |changed|
        ensures Disjoint(changed[i], changed[j])
      {
        assert Disjoint(ps[i], ps[j]);
        assert i == idx && ps[j].start > p.start ==> Nearest(ps, limit, p.start) <= ps[j].start;
        assert j == idx && ps[i].start > p.start ==> Nearest(ps, limit, p.start) <= ps[i].start;
      }
      assert forall i :: 0 <= i < |changed| ==> changed[i].start == ps[i].start && changed[i].valid;
    }
  }

  // ------------------------------------------------------------------
  // Free space
  // ------------------------------------------------------------------

  lemma Advance(ps: seq<Part>, start: int, i: int)
    requires 0 <= i < |ps| && Inside(start, ps[i]) && start % ALIGN == 0 && AllTaken(ps, start)
    ensures var next := AlignUp(ps[i].start + ps[i].count);
            next > start && next % ALIGN == 0 && AllTaken(ps, next) && EndingAfter(ps, next) < EndingAfter(ps, start)
  {
    var end := ps[i].start + ps[i].count;
    var next := AlignUp(end);
    forall m | 1 <= m && ALIGN * m < next
      ensures InSome(ALIGN * m, ps)
    {
      if ALIGN * m >= start {
        assert ALIGN * m < end;
        assert Inside(ALIGN * m, ps[i]);
      }
    }
    FewerEndAfter(ps, start, next);
  }

  /** The first partition start after s, or the limit. */
  function Nearest(ps: seq<Part>, limit: int, s: int): int {
    if ps == [] then limit
    else
      var n := Nearest(ps[..|ps| - 1], limit, s);
      var p := ps[|ps| - 1];
      if p.valid && p.start > s && p.start < n then p.start else n
  }

  /** The sectors free from s, if s itself is. */
  function MaxFrom(ps: seq<Part>, limit: int, s: int): nat {
    var n := Nearest(ps, limit, s);
    if n <= s then 0 else n - s
  }
}
