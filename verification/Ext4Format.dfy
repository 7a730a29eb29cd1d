// Formatting an ext4 volume: layout, one pass over the block groups, then the
// root directory and the final totals.
module Ext4Format {
  import opened Bitmaps
  import opened Words

  const BLOCK: nat := 4096
  const PER_GROUP: nat := 32768
  const PER_BLOCK: nat := 128
  const FIRST_INODE: nat := 11
  const ROOT_INODE: nat := 2
  const HALF: int := 0x1_0000_0000

  datatype Geometry = Geometry(total: nat, groups: nat, gdt: nat, inodes: nat, table: nat)

  // The counts are stored in 16 bits.
  datatype Desc = Desc(blockBitmap: int, inodeBitmap: int, inodeTable: int, freeBlocks: uint16, freeInodes: uint16,
                       dirs: int)

  datatype Totals = Totals(blocks: int, inodes: int, freeBlocks: int, freeInodes: int)

  datatype Inode = Inode(mode: nat, size: nat, links: nat, sectors: nat, block: nat)

  datatype Link = Link(inode: nat, length: nat, name: string, kind: nat)

  /** What a block holds: the bytes of a bitmap or of zeros, descriptors by position,
      the superblock's totals, inodes by position, or directory entries. */
  datatype Content =
    | Bytes(bytes: seq<bv8>)
    | Descs(descs: map<nat, Desc>)
    | Super(totals: Totals)
    | Inodes(inodes: map<nat, Inode>)
    | Directory(entries: seq<Link>)

  type Image = map<int, Content>

  function Zero(): Content {
    Bytes(seq(BLOCK, _ => 0 as bv8))
  }

  /** Blocks a group's own metadata takes: superblock, descriptors, two bitmaps, inode table. */
  function Overhead(g: Geometry): nat {
    1 + g.gdt + 1 + 1 + g.table
  }

  function GroupBlocks(g: Geometry, k: nat): nat
    requires k * PER_GROUP <= g.total
  {
    if (k + 1) * PER_GROUP > g.total then g.total - k * PER_GROUP else PER_GROUP
  }

  /** What the layout computed for a device of 64 to 2^32 - 1 blocks is like. */
  predicate Planned(g: Geometry) {
    && 64 <= g.total < HALF
    && g.groups == (if g.total <= HALF - PER_GROUP then (g.total + PER_GROUP - 1) / PER_GROUP else 1)
    && g.gdt == (g.groups * 32 + BLOCK - 1) / BLOCK
    && 16 <= g.inodes <= 1024 && g.table == (g.inodes * 256 + BLOCK - 1) / BLOCK
    && (g.groups == 1 ==> Overhead(g) + 2 < g.total)
  }

  /** The groups cover every block. */
  predicate Covers(g: Geometry) {
    g.total <= g.groups * PER_GROUP
  }

  /** Too small a device is refused; otherwise the layout fits 16-bit counts and group 0 holds
      its metadata and the root directory.  The groups cover the device exactly when that has
      at most 2^32 - 32768 blocks; on a larger one their number wraps to one. */
  method Plan(total: nat) returns (plan: Option<Geometry>)
    requires total < HALF
    ensures plan.None? <==> total < 64
    ensures plan.Some? ==> plan.value.total == total && Planned(plan.value)
    ensures plan.Some? ==> var n := total / 32; plan.value.inodes == if n < 16 then 16 else if n > 1024 then 1024 else n
    ensures plan.Some? ==> (Covers(plan.value) <==> total <= HALF - PER_GROUP)
  {
    if total < 64 {
      return None;
    }
    var inodes := total / 32;
    if inodes < 16 { inodes := 16; }
    if inodes > 1024 { inodes := 1024; }
    var groups := (total + PER_GROUP - 1) % HALF / PER_GROUP;
    if groups == 0 { groups := 1; }
    var gdt := (groups * 32 + BLOCK - 1) / BLOCK;
    var table := (inodes * 256 + BLOCK - 1) / BLOCK;
    // The source falls back to 16 inodes when a single group is too small for its
    // metadata; that never happens, as `Planned` being met without it shows.
    plan := Some(Geometry(total, groups, gdt, inodes, table));
  }

  lemma PlannedBounds(g: Geometry)
    requires Planned(g)
    ensures 1 <= g.groups <= 131072 && 1 <= g.gdt <= 1024 && 1 <= g.table <= 64
    ensures (g.groups - 1) * PER_GROUP < g.total
    ensures g.groups <= g.gdt * PER_BLOCK
    ensures Overhead(g) < PER_GROUP && Overhead(g) < GroupBlocks(g, 0)
  {
  }

  function BlockBitmap(g: Geometry, k: nat): int { k * PER_GROUP + 1 + g.gdt }
  function InodeBitmap(g: Geometry, k: nat): int { BlockBitmap(g, k) + 1 }
  function InodeTable(g: Geometry, k: nat): int { BlockBitmap(g, k) + 2 }

  /** The block of a group's descriptor; descriptors are 32 bytes each, from block 1 on. */
  function DescBlock(k: nat): nat { 1 + k / PER_BLOCK }

  function Used(g: Geometry, k: nat): nat
    requires k * PER_GROUP <= g.total
  {
    if Overhead(g) > GroupBlocks(g, k) then GroupBlocks(g, k) else Overhead(g)
  }

  /** Bits of a group's block bitmap: metadata, the root directory in group 0, and
      everything past the end of the group. */
  ghost predicate BlockBits(c: Content, g: Geometry, k: nat)
    requires k * PER_GROUP <= g.total
  {
    c.Bytes? && |c.bytes| == BLOCK && forall b: nat :: b < PER_GROUP ==>
      (IsSet(c.bytes, b) <==> b < Used(g, k) || (k == 0 && b == Overhead(g)) || b >= GroupBlocks(g, k))
  }

  /** Bits of a group's inode bitmap: the reserved inodes in group 0, and past the end. */
  ghost predicate InodeBits(c: Content, g: Geometry, k: nat) {
    c.Bytes? && |c.bytes| == BLOCK && forall b: nat :: b < PER_GROUP ==>
      (IsSet(c.bytes, b) <==> (k == 0 && b < FIRST_INODE) || b >= g.inodes)
  }

  // The descriptor the pass over the groups writes; group 0 is corrected at the end.
  function FirstDesc(g: Geometry, k: nat): Desc
    requires Planned(g) && k < g.groups
  {
    PlannedBounds(g);
    Desc(BlockBitmap(g, k), InodeBitmap(g, k), InodeTable(g, k),
         (GroupBlocks(g, k) - Used(g, k)) as uint16,
         (if k == 0 then g.inodes - FIRST_INODE else g.inodes) as uint16,
         if k == 0 then 1 else 0)
  }

  /** A group of n blocks can hold its metadata. */
  predicate GroupHolds(g: Geometry, k: nat)
    requires k * PER_GROUP <= g.total
  {
    Overhead(g) <= GroupBlocks(g, k)
  }

  // ------------------------------------------------------------------
  // The device
  // ------------------------------------------------------------------

  const NO_DESC: Desc := Desc(0, 0, 0, 0, 0, 0)

  predicate HasDesc(blocks: Image, k: nat) {
    DescBlock(k) in blocks && blocks[DescBlock(k)].Descs? && k % PER_BLOCK in blocks[DescBlock(k)].descs
  }

  /** The descriptor a driver finds for group k. */
  function DescAt(blocks: Image, k: nat): Desc {
    if HasDesc(blocks, k) then blocks[DescBlock(k)].descs[k % PER_BLOCK] else NO_DESC
  }

  /** 32 bytes of a block replaced; over anything but descriptors the rest is not one. */
  function WithDesc(blocks: Image, k: nat, d: Desc): Image {
    var others := if DescBlock(k) in blocks && blocks[DescBlock(k)].Descs? then blocks[DescBlock(k)].descs else map[];
    blocks[DescBlock(k) := Descs(others[k % PER_BLOCK := d])]
  }

  lemma DescReadBack(blocks: Image, k: nat, d: Desc, j: nat)
    ensures var after := WithDesc(blocks, k, d);
            && HasDesc(after, k) && DescAt(after, k) == d
            && (j != k ==> (HasDesc(after, j) <==> HasDesc(blocks, j)) && DescAt(after, j) == DescAt(blocks, j))
  {
    SamePlace(j, k);
  }

  lemma SamePlace(j: nat, k: nat)
    ensures DescBlock(j) == DescBlock(k) && j % PER_BLOCK == k % PER_BLOCK ==> j == k
  {
  }

  function SumFree(blocks: Image, n: nat): int {
    if n == 0 then 0 else SumFree(blocks, n - 1) + DescAt(blocks, n - 1).freeBlocks as int
  }

  function SumInodes(blocks: Image, n: nat): int {
    if n == 0 then 0 else SumInodes(blocks, n - 1) + DescAt(blocks, n - 1).freeInodes as int
  }

  ghost predicate SameAt(n: int, x: Image, y: Image) {
    (n in x <==> n in y) && (n in x ==> x[n] == y[n])
  }

  /** n blocks from `at` are zero, the others as before. */
  ghost predicate Zeroed(before: Image, after: Image, at: int, n: nat) {
    && (forall k :: k in after <==> at <= k < at + n || k in before)
    && (forall k :: k in after ==> after[k] == if at <= k < at + n then Zero() else before[k])
  }

  function ZeroBlocks(m: Image, at: int, n: nat): (r: Image)
    ensures Zeroed(m, r, at, n)
  {
    if n == 0 then m else ZeroBlocks(m, at, n - 1)[at + n - 1 := Zero()]
  }

  lemma ZeroedFurther(x: Image, y: Image, z: Image, at: int, m: nat, n: nat)
    requires Zeroed(x, y, at, m) && Zeroed(y, z, at + m, n)
    ensures Zeroed(x, z, at, m + n)
  {
  }

  class Device {
    const total: nat
    var blocks: Image

    constructor (n: nat)
      ensures total == n && blocks == map[]
    {
      total, blocks := n, map[];
    }

    // A write past the end of the device fails.
    method WriteBlock(n: int, content: Content) returns (ok: bool)
      modifies this
      ensures ok == (0 <= n < total)
      ensures blocks == if ok then old(blocks)[n := content] else old(blocks)
    {
      ok := 0 <= n < total;
      if ok {
        blocks := blocks[n := content];
      }
    }

    method WriteDesc(k: nat, d: Desc) returns (ok: bool)
      modifies this
      ensures ok == (DescBlock(k) < total)
      ensures blocks == if ok then WithDesc(old(blocks), k, d) else old(blocks)
    {
      ok := DescBlock(k) < total;
      if ok {
        blocks := WithDesc(blocks, k, d);
      }
    }

    // Zeroes the inode table, 16 blocks at a time.
    method ZeroTable(at: int, count: nat) returns (ok: bool)
      requires 0 <= at && count > 0
      modifies this
      ensures ok == (at + count <= total)
      ensures forall n :: !(at <= n < at + count) ==> SameAt(n, old(blocks), blocks)
      ensures ok ==> Zeroed(old(blocks), blocks, at, count)
    {
      var chunk := 0;
      var remain := count;
      while remain > 0
        invariant chunk + remain == count && (chunk > 0 ==> at + chunk <= total)
        invariant Zeroed(old(blocks), blocks, at, chunk)
      {
        var n := if remain > 16 then 16 else remain;
        if at + chunk + n > total {
          return false;
        }
        ghost var before := blocks;
        blocks := ZeroBlocks(blocks, at + chunk, n);
        ZeroedFurther(old(blocks), before, blocks, at, chunk, n);
        chunk := chunk + n;
        remain := remain - n;
      }
      ok := true;
    }
  }

  // ------------------------------------------------------------------
  // The pass over the groups
  // ------------------------------------------------------------------

  method MakeBlockBitmap(g: Geometry, k: nat) returns (buf: array<bv8>)
    requires Planned(g) && k < g.groups
    requires k * PER_GROUP <= g.total
    ensures fresh(buf) && BlockBits(Bytes(buf[..]), g, k)
  {
    PlannedBounds(g);
    buf := NewBlock(BLOCK);
    SetRange(buf, 0, Used(g, k));
    if k == 0 {
      SetBit(buf, Overhead(g));
    }
    SetRange(buf, GroupBlocks(g, k), PER_GROUP);
  }

  method MakeInodeBitmap(g: Geometry, k: nat) returns (buf: array<bv8>)
    requires Planned(g)
    ensures fresh(buf) && InodeBits(Bytes(buf[..]), g, k)
  {
    buf := NewBlock(BLOCK);
    if k == 0 {
      SetRange(buf, 0, FIRST_INODE);
    }
    SetRange(buf, g.inodes, BLOCK * 8);
  }

  /** What one group looks like after the pass over the groups, but for the first block of
      group 0's inode table, where the root inode goes. */
  ghost predicate GroupDone(g: Geometry, k: nat, blocks: Image)
    requires k * PER_GROUP <= g.total
  {
    && BlockBitmap(g, k) in blocks && BlockBits(blocks[BlockBitmap(g, k)], g, k)
    && InodeBitmap(g, k) in blocks && InodeBits(blocks[InodeBitmap(g, k)], g, k)
    && TableClear(g, k, blocks)
  }

  ghost predicate TableClear(g: Geometry, k: nat, blocks: Image) {
    forall n :: InodeTable(g, k) + (if k == 0 then 1 else 0) <= n < InodeTable(g, k) + g.table ==>
      n in blocks && blocks[n] == Zero()
  }

  /** Where group k's bitmaps and inode table are. */
  predicate InMetadata(g: Geometry, k: nat, n: int) {
    BlockBitmap(g, k) <= n < InodeTable(g, k) + g.table
  }

  // One turn of the loop over the groups.
  method FormatGroup(dev: Device, g: Geometry, k: nat) returns (ok: bool)
    requires Planned(g) && k < g.groups && dev.total == g.total
    requires k * PER_GROUP <= g.total
    modifies dev
    ensures ok <==> GroupHolds(g, k)
    ensures ok ==> GroupDone(g, k, dev.blocks)
    ensures forall n :: !InMetadata(g, k, n) ==> SameAt(n, WithDesc(old(dev.blocks), k, FirstDesc(g, k)), dev.blocks)
  {
    PlannedBounds(g);
    TableInside(g, k);
    ok := dev.WriteDesc(k, FirstDesc(g, k));
    GroupEnd(g, k);
    var buf := MakeBlockBitmap(g, k);
    ok := dev.WriteBlock(BlockBitmap(g, k), Bytes(buf[..]));
    if !ok {
      return;
    }
    buf := MakeInodeBitmap(g, k);
    ok := dev.WriteBlock(InodeBitmap(g, k), Bytes(buf[..]));
    if !ok {
      return;
    }
    ghost var before := dev.blocks;
    ok := dev.ZeroTable(InodeTable(g, k), g.table);
    assert SameAt(BlockBitmap(g, k), before, dev.blocks) && SameAt(InodeBitmap(g, k), before, dev.blocks);
    forall n | !InMetadata(g, k, n)
      ensures SameAt(n, WithDesc(old(dev.blocks), k, FirstDesc(g, k)), dev.blocks)
    {
      assert SameAt(n, before, dev.blocks);
    }
  }

  lemma GroupEnd(g: Geometry, k: nat)
    requires Planned(g) && k < g.groups && k * PER_GROUP <= g.total
    ensures GroupHolds(g, k) <==> InodeTable(g, k) + g.table <= g.total
  {
    PlannedBounds(g);
  }

  /** The descriptor table lies before the first bitmap of every group. */
  lemma TableInside(g: Geometry, k: nat)
    requires Planned(g) && k < g.groups
    ensures 1 <= DescBlock(k) <= g.gdt && DescBlock(k) < g.total
    ensures forall j: nat :: !InMetadata(g, j, DescBlock(k)) && !InMetadata(g, j, 0)
  {
    PlannedBounds(g);
  }

  /** Every group's bitmaps are where the descriptors say, with exactly their bits. */
  ghost predicate AllGroups(g: Geometry, n: nat, blocks: Image)
    requires Planned(g) && n <= g.groups
  {
    PlannedBounds(g);
    forall k :: 0 <= k < n ==> GroupDone(g, k, blocks)
  }

  ghost predicate AllHold(g: Geometry)
    requires Planned(g)
  {
    PlannedBounds(g);
    forall k :: 0 <= k < g.groups ==> GroupHolds(g, k)
  }

  /** Only the last group can be too short for its metadata. */
  lemma OnlyLastShort(g: Geometry)
    requires Planned(g)
    ensures (g.groups - 1) * PER_GROUP <= g.total
    ensures AllHold(g) <==> GroupHolds(g, g.groups - 1)
  {
    PlannedBounds(g);
    forall k | 0 <= k < g.groups - 1
      ensures GroupHolds(g, k)
    {
    }
  }

  predicate DescsWritten(g: Geometry, n: nat, blocks: Image)
    requires Planned(g) && n <= g.groups
  {
    forall k: nat :: k < n ==> HasDesc(blocks, k) && DescAt(blocks, k) == FirstDesc(g, k)
  }

  // A group's metadata touches no other group's.
  lemma MetadataApart(g: Geometry, j: nat, k: nat, n: int)
    requires Planned(g) && j != k && InMetadata(g, j, n)
    ensures !InMetadata(g, k, n)
  {
    PlannedBounds(g);
    if j < k {
      GroupsApart(j, k);
    } else {
      GroupsApart(k, j);
    }
  }

  lemma GroupsApart(j: nat, k: nat)
    requires j < k
    ensures (j + 1) * PER_GROUP <= k * PER_GROUP
  {
  }

  lemma GroupKept(g: Geometry, j: nat, before: Image, after: Image)
    requires Planned(g) && j * PER_GROUP <= g.total && GroupDone(g, j, before)
    requires forall n :: InMetadata(g, j, n) && (n == InodeTable(g, j) ==> j > 0) ==> SameAt(n, before, after)
    ensures GroupDone(g, j, after)
  {
    PlannedBounds(g);
    assert InMetadata(g, j, BlockBitmap(g, j)) && InMetadata(g, j, InodeBitmap(g, j));
    forall n | InodeTable(g, j) + (if j == 0 then 1 else 0) <= n < InodeTable(g, j) + g.table
      ensures n in after && after[n] == Zero()
    {
      assert InMetadata(g, j, n);
    }
  }

  // The earlier groups after one more has been written.
  lemma EarlierGroupsKept(g: Geometry, k: nat, d: Desc, before: Image, after: Image)
    requires Planned(g) && k < g.groups && AllGroups(g, k, before)
    requires forall n :: !InMetadata(g, k, n) ==> SameAt(n, WithDesc(before, k, d), after)
    ensures AllGroups(g, k, after)
  {
    PlannedBounds(g);
    TableInside(g, k);
    forall j | 0 <= j < k
      ensures GroupDone(g, j, after)
    {
      forall n | InMetadata(g, j, n)
        ensures SameAt(n, before, after)
      {
        MetadataApart(g, j, k, n);
      }
      GroupKept(g, j, before, after);
    }
  }

  lemma DescsKept(g: Geometry, k: nat, d: Desc, before: Image, after: Image, j: nat)
    requires Planned(g) && k < g.groups && j < g.groups
    requires forall n :: !InMetadata(g, k, n) ==> SameAt(n, WithDesc(before, k, d), after)
    ensures HasDesc(after, k) && DescAt(after, k) == d
    ensures j != k ==> (HasDesc(after, j) <==> HasDesc(before, j)) && DescAt(after, j) == DescAt(before, j)
  {
    TableInside(g, j);
    TableInside(g, k);
    DescReadBack(before, k, d, j);
    assert SameAt(DescBlock(j), WithDesc(before, k, d), after) && SameAt(DescBlock(k), WithDesc(before, k, d), after);
  }

  lemma {:induction false} SumSame(x: Image, y: Image, n: nat)
    requires forall k: nat :: k < n ==> DescAt(x, k) == DescAt(y, k)
    ensures SumFree(y, n) == SumFree(x, n) && SumInodes(y, n) == SumInodes(x, n)
  {
    if n > 0 {
      SumSame(x, y, n - 1);
    }
  }

  lemma {:induction false} SumChanged(x: Image, y: Image, n: nat)
    requires 0 < n && forall k: nat :: 0 < k < n ==> DescAt(x, k) == DescAt(y, k)
    ensures SumFree(y, n) == SumFree(x, n) - DescAt(x, 0).freeBlocks as int + DescAt(y, 0).freeBlocks as int
    ensures SumInodes(y, n) == SumInodes(x, n) - DescAt(x, 0).freeInodes as int + DescAt(y, 0).freeInodes as int
  {
    if n > 1 {
      SumChanged(x, y, n - 1);
    } else {
      assert SumFree(x, 0) == SumFree(y, 0) == 0 && SumInodes(x, 0) == SumInodes(y, 0) == 0;
    }
  }

  lemma {:induction false} InodeTotal(g: Geometry, blocks: Image, n: nat)
    requires Planned(g) && 0 < n <= g.groups && DescsWritten(g, n, blocks)
    ensures SumInodes(blocks, n) == g.inodes * n - FIRST_INODE
  {
    assert DescAt(blocks, n - 1) == FirstDesc(g, n - 1);
    if n > 1 {
      InodeTotal(g, blocks, n - 1);
      OneMore(g.inodes, n);
    } else {
      assert SumInodes(blocks, 0) == 0;
    }
  }

  lemma OneMore(x: nat, n: nat)
    requires n > 0
    ensures x * (n - 1) + x == x * n
  {
  }

  // One more group, after k of them.
  method FormatNext(dev: Device, g: Geometry, k: nat, free: int) returns (ok: bool, free': int)
    requires Planned(g) && k < g.groups && dev.total == g.total
    requires AllGroups(g, k, dev.blocks) && DescsWritten(g, k, dev.blocks) && free == SumFree(dev.blocks, k)
    requires k * PER_GROUP <= g.total
    modifies dev
    ensures ok <==> GroupHolds(g, k)
    ensures ok ==> AllGroups(g, k + 1, dev.blocks) && DescsWritten(g, k + 1, dev.blocks)
    ensures ok ==> free' == SumFree(dev.blocks, k + 1)
  {
    PlannedBounds(g);
    ghost var blocks := dev.blocks;
    ok := FormatGroup(dev, g, k);
    free' := free + FirstDesc(g, k).freeBlocks as int;
    if ok {
      NextDone(g, k, blocks, dev.blocks);
    }
  }

  lemma NextDone(g: Geometry, k: nat, before: Image, after: Image)
    requires Planned(g) && k < g.groups && AllGroups(g, k, before) && DescsWritten(g, k, before)
    requires k * PER_GROUP <= g.total && GroupDone(g, k, after)
    requires forall n :: !InMetadata(g, k, n) ==> SameAt(n, WithDesc(before, k, FirstDesc(g, k)), after)
    ensures AllGroups(g, k + 1, after) && DescsWritten(g, k + 1, after)
    ensures SumFree(after, k + 1) == SumFree(before, k) + FirstDesc(g, k).freeBlocks as int
  {
    EarlierGroupsKept(g, k, FirstDesc(g, k), before, after);
    forall j: nat | j < k + 1
      ensures HasDesc(after, j) && DescAt(after, j) == FirstDesc(g, j)
    {
      DescsKept(g, k, FirstDesc(g, k), before, after, j);
    }
    SumSame(before, after, k);
  }

  // The pass over all groups; the free blocks add up as it goes.
  method FormatGroups(dev: Device, g: Geometry) returns (ok: bool, free: int)
    requires Planned(g) && dev.total == g.total
    modifies dev
    ensures ok <==> AllHold(g)
    ensures ok ==> AllGroups(g, g.groups, dev.blocks) && DescsWritten(g, g.groups, dev.blocks)
    ensures ok ==> free == SumFree(dev.blocks, g.groups)
  {
    PlannedBounds(g);
    free := 0;
    for k := 0 to g.groups
      invariant AllGroups(g, k, dev.blocks) && DescsWritten(g, k, dev.blocks)
      invariant forall j :: 0 <= j < k ==> GroupHolds(g, j)
      invariant free == SumFree(dev.blocks, k)
    {
      ok, free := FormatNext(dev, g, k, free);
      if !ok {
        return;
      }
    }
    ok := true;
  }

  // ------------------------------------------------------------------
  // The finished volume
  // ------------------------------------------------------------------

  /** Group k's descriptor says where its metadata is and counts the clear bits of its two
      bitmaps. */
  ghost predicate CountsMatch(g: Geometry, k: nat, blocks: Image)
    requires k * PER_GROUP <= g.total
  {
    && GroupDone(g, k, blocks) && HasDesc(blocks, k)
    && DescAt(blocks, k).blockBitmap == BlockBitmap(g, k) && DescAt(blocks, k).inodeBitmap == InodeBitmap(g, k)
    && DescAt(blocks, k).inodeTable == InodeTable(g, k)
    && ClearBits(blocks[BlockBitmap(g, k)].bytes, PER_GROUP) == DescAt(blocks, k).freeBlocks as int
    && ClearBits(blocks[InodeBitmap(g, k)].bytes, PER_GROUP) == DescAt(blocks, k).freeInodes as int
  }

  /** The root directory: an inode of 4096 bytes in one block, and in that block entries that
      fill it, of which those in use are the directory itself and its parent, which is itself,
      as many as the links the inode counts. */
  ghost predicate HasRoot(g: Geometry, blocks: Image) {
    && InodeTable(g, 0) in blocks && blocks[InodeTable(g, 0)].Inodes?
    && ROOT_INODE - 1 in blocks[InodeTable(g, 0)].inodes
    && var root := blocks[InodeTable(g, 0)].inodes[ROOT_INODE - 1];
       && root.mode / 0x1000 == 4 && root.size == BLOCK == 512 * root.sectors && root.block == Overhead(g)
       && root.block in blocks && blocks[root.block].Directory?
       && IsRootDirectory(blocks[root.block].entries, root.size, root.links)
  }

  predicate IsRootDirectory(es: seq<Link>, size: nat, links: nat) {
    && TotalLength(es) == size && (forall e <- es :: e.length >= 8 + |e.name| && e.length % 4 == 0)
    && InUse(es) == [(".", ROOT_INODE), ("..", ROOT_INODE)] && |InUse(es)| == links
  }

  /** The names a driver finds, entry after entry. */
  function InUse(es: seq<Link>): seq<(string, nat)> {
    if es == [] then []
    else (if es[0].inode == 0 then [] else [(es[0].name, es[0].inode)]) + InUse(es[1..])
  }

  function TotalLength(es: seq<Link>): nat {
    if es == [] then 0 else es[0].length + TotalLength(es[1..])
  }

  function RootInode(g: Geometry): Inode {
    Inode(0x4000 + 0x1ED, BLOCK, 2, BLOCK / 512, Overhead(g))
  }

  function RootEntries(): seq<Link> {
    [Link(ROOT_INODE, 12, ".", 2), Link(ROOT_INODE, 12, "..", 2), Link(0, BLOCK - 24, "", 0)]
  }

  lemma RootFillsBlock()
    ensures IsRootDirectory(RootEntries(), BLOCK, 2)
  {
    var es := RootEntries();
    ThreeEntries(es[0], es[1], es[2]);
    assert es == [es[0], es[1], es[2]];
  }

  lemma ThreeEntries(x: Link, y: Link, z: Link)
    requires x.inode != 0 && y.inode != 0 && z.inode == 0
    ensures TotalLength([x, y, z]) == x.length + y.length + z.length
    ensures InUse([x, y, z]) == [(x.name, x.inode), (y.name, y.inode)]
  {
    assert [x, y, z][1..] == [y, z] && [y, z][1..] == [z] && [z][1..] == [];
    assert TotalLength([z]) == z.length && TotalLength([y, z]) == y.length + z.length;
    assert InUse([z]) == [] && InUse([y, z]) == [(y.name, y.inode)];
  }

  /** Bitmaps, descriptors, root directory and superblock, each in its blocks, agree. */
  ghost predicate Consistent(g: Geometry, blocks: Image)
    requires Planned(g)
  {
    PlannedBounds(g);
    && (forall k :: 0 <= k < g.groups ==> CountsMatch(g, k, blocks))
    && HasRoot(g, blocks)
    && 0 in blocks
    && blocks[0] == Super(Totals(g.total, g.inodes * g.groups, SumFree(blocks, g.groups), SumInodes(blocks, g.groups)))
  }

  /** The clear bits of a finished group are its free blocks and inodes. */
  lemma ClearAreFree(g: Geometry, k: nat, blocks: Image)
    requires Planned(g) && k < g.groups && k * PER_GROUP <= g.total && GroupDone(g, k, blocks)
    ensures ClearBits(blocks[BlockBitmap(g, k)].bytes, PER_GROUP) ==
            GroupBlocks(g, k) - Used(g, k) - (if k == 0 then 1 else 0)
    ensures ClearBits(blocks[InodeBitmap(g, k)].bytes, PER_GROUP) == g.inodes - (if k == 0 then FIRST_INODE else 0)
  {
    PlannedBounds(g);
    var lo := if k == 0 then Overhead(g) + 1 else Used(g, k);
    ClearRange(blocks[BlockBitmap(g, k)].bytes, PER_GROUP, lo, GroupBlocks(g, k));
    ClearRange(blocks[InodeBitmap(g, k)].bytes, PER_GROUP, if k == 0 then FIRST_INODE else 0, g.inodes);
  }

  // All the groups, when nothing of theirs but the bitmap of group 0 was written to.
  lemma GroupsKept(g: Geometry, before: Image, after: Image)
    requires Planned(g) && AllGroups(g, g.groups, before)
    requires BlockBitmap(g, 0) in after && BlockBits(after[BlockBitmap(g, 0)], g, 0)
    requires forall n :: n > g.gdt && n != BlockBitmap(g, 0) && n != InodeTable(g, 0) && n != Overhead(g) ==>
             SameAt(n, before, after)
    ensures AllGroups(g, g.groups, after)
  {
    PlannedBounds(g);
    forall k | 0 <= k < g.groups
      ensures GroupDone(g, k, after)
    {
      assert GroupDone(g, k, before);
      if k > 0 {
        GroupsApart(0, k);
        forall n | InMetadata(g, k, n)
          ensures SameAt(n, before, after)
        {
        }
        GroupKept(g, k, before, after);
      } else {
        FirstGroupKept(g, before, after);
      }
    }
  }

  lemma FirstGroupKept(g: Geometry, before: Image, after: Image)
    requires Planned(g) && GroupDone(g, 0, before)
    requires BlockBitmap(g, 0) in after && BlockBits(after[BlockBitmap(g, 0)], g, 0)
    requires forall n :: n > g.gdt && n != BlockBitmap(g, 0) && n != InodeTable(g, 0) && n != Overhead(g) ==>
             SameAt(n, before, after)
    ensures GroupDone(g, 0, after)
  {
    assert SameAt(InodeBitmap(g, 0), before, after);
    forall n | InodeTable(g, 0) + 1 <= n < InodeTable(g, 0) + g.table
      ensures n in after && after[n] == Zero()
    {
      assert SameAt(n, before, after);
    }
  }

  // The root inode and directory, and the directory's bit once more.
  method WriteRoot(dev: Device, g: Geometry) returns (ok: bool)
    requires Planned(g) && dev.total == g.total && AllHold(g) && AllGroups(g, g.groups, dev.blocks)
    modifies dev
    ensures ok && AllGroups(g, g.groups, dev.blocks) && HasRoot(g, dev.blocks)
    ensures forall n :: n <= g.gdt ==> SameAt(n, old(dev.blocks), dev.blocks)
  {
    PlannedBounds(g);
    var first := Overhead(g);
    ghost var before := dev.blocks;
    assert GroupDone(g, 0, before);
    ok := dev.WriteBlock(InodeTable(g, 0), Inodes(map[ROOT_INODE - 1 := RootInode(g)]));
    ok := dev.WriteBlock(first, Directory(RootEntries()));
    RootFillsBlock();
    var bitmap := dev.blocks[BlockBitmap(g, 0)].bytes;
    var buf := MarkAgain(bitmap, g);
    ok := dev.WriteBlock(BlockBitmap(g, 0), Bytes(buf[..]));
    GroupsKept(g, before, dev.blocks);
  }

  method MarkAgain(bitmap: seq<bv8>, g: Geometry) returns (buf: array<bv8>)
    requires Planned(g) && BlockBits(Bytes(bitmap), g, 0)
    ensures fresh(buf) && BlockBits(Bytes(buf[..]), g, 0)
  {
    PlannedBounds(g);
    buf := new bv8[BLOCK](_ => 0);
    forall i | 0 <= i < BLOCK {
      buf[i] := bitmap[i];
    }
    assert buf[..] == bitmap;
    SetBit(buf, Overhead(g));
  }

  /** Formatting succeeds iff the last group is long enough for its metadata, and then
      leaves bitmaps, descriptors, root directory and superblock in agreement. */
  method Format(dev: Device, g: Geometry) returns (ok: bool)
    requires Planned(g) && dev.total == g.total
    modifies dev
    ensures ok <==> AllHold(g)
    ensures ok ==> Consistent(g, dev.blocks)
  {
    PlannedBounds(g);
    var totals := Totals(g.total, g.inodes * g.groups, 0, g.inodes * g.groups - FIRST_INODE);
    var written := dev.WriteBlock(0, Super(totals));
    var free;
    ok, free := FormatGroups(dev, g);
    if !ok {
      return;
    }
    ghost var before := dev.blocks;
    ok := WriteRoot(dev, g);
    WriteTotals(dev, g, totals.(freeBlocks := free - 1), before);
  }

  // The superblock with its totals, and the descriptor of group 0 less one block.
  method WriteTotals(dev: Device, g: Geometry, totals: Totals, ghost before: Image)
    requires Planned(g) && dev.total == g.total && AllGroups(g, g.groups, dev.blocks) && HasRoot(g, dev.blocks)
    requires DescsWritten(g, g.groups, before) && forall n :: n <= g.gdt ==> SameAt(n, before, dev.blocks)
    requires totals == Totals(g.total, g.inodes * g.groups, SumFree(before, g.groups) - 1,
               g.inodes * g.groups - FIRST_INODE)
    modifies dev
    ensures Consistent(g, dev.blocks)
  {
    PlannedBounds(g);
    ghost var groups := dev.blocks;
    var ok := dev.WriteBlock(0, Super(totals));
    ghost var marked := dev.blocks;
    TotalsApart(g, before, groups, marked);
    var first := DescAt(dev.blocks, 0);
    ok := dev.WriteDesc(0, first.(freeBlocks := first.freeBlocks - 1));
    BitmapsApart(g, groups, marked, dev.blocks);
    TotalsAgree(g, before, marked, dev.blocks);
  }

  // The superblock's block is none of the descriptors'.
  lemma TotalsApart(g: Geometry, before: Image, groups: Image, marked: Image)
    requires Planned(g) && DescsWritten(g, g.groups, before)
    requires (forall n :: n <= g.gdt ==> SameAt(n, before, groups)) && forall n :: n != 0 ==> SameAt(n, groups, marked)
    ensures DescsWritten(g, g.groups, marked) && DescAt(marked, 0) == FirstDesc(g, 0) && FirstDesc(g, 0).freeBlocks >= 1
    ensures SumFree(marked, g.groups) == SumFree(before, g.groups)
  {
    forall n | 1 <= n <= g.gdt
      ensures SameAt(n, before, marked)
    {
      assert SameAt(n, before, groups) && SameAt(n, groups, marked);
    }
    Unmoved(g, before, marked);
  }

  // Nor are these two any of the groups' or the root directory's.
  lemma BitmapsApart(g: Geometry, groups: Image, marked: Image, after: Image)
    requires Planned(g) && AllGroups(g, g.groups, groups) && HasRoot(g, groups)
    requires (forall n :: n != 0 ==> SameAt(n, groups, marked)) && forall n :: n != DescBlock(0) ==>
             SameAt(n, marked, after)
    ensures AllGroups(g, g.groups, after) && HasRoot(g, after)
  {
    PlannedBounds(g);
    forall n | n > g.gdt
      ensures SameAt(n, groups, after)
    {
      assert SameAt(n, groups, marked) && SameAt(n, marked, after);
    }
    assert SameAt(BlockBitmap(g, 0), groups, after) && SameAt(InodeTable(g, 0), groups, after) &&
        SameAt(Overhead(g), groups, after);
    assert GroupDone(g, 0, groups);
    GroupsKept(g, groups, after);
  }

  lemma Unmoved(g: Geometry, before: Image, after: Image)
    requires Planned(g) && DescsWritten(g, g.groups, before) && forall n :: 1 <= n <= g.gdt ==> SameAt(n, before, after)
    ensures DescsWritten(g, g.groups, after) && DescAt(after, 0) == FirstDesc(g, 0) && FirstDesc(g, 0).freeBlocks >= 1
    ensures SumFree(after, g.groups) == SumFree(before, g.groups)
  {
    PlannedBounds(g);
    forall k: nat | k < g.groups
      ensures HasDesc(after, k) && DescAt(after, k) == DescAt(before, k) == FirstDesc(g, k)
    {
      TableInside(g, k);
      assert SameAt(DescBlock(k), before, after) && HasDesc(before, k);
    }
    SumSame(before, after, g.groups);
  }

  lemma TotalsAgree(g: Geometry, before: Image, marked: Image, after: Image)
    requires Planned(g) && DescsWritten(g, g.groups, marked) && AllGroups(g, g.groups, after) && HasRoot(g, after)
    requires SumFree(marked, g.groups) == SumFree(before, g.groups)
    requires FirstDesc(g, 0).freeBlocks >= 1
    requires after == WithDesc(marked, 0, FirstDesc(g, 0).(freeBlocks := FirstDesc(g, 0).freeBlocks - 1))
    requires 0 in after && after[0] ==
             Super(Totals(g.total, g.inodes * g.groups, SumFree(before, g.groups) - 1,
                 g.inodes * g.groups - FIRST_INODE))
    ensures Consistent(g, after)
  {
    PlannedBounds(g);
    var d := FirstDesc(g, 0).(freeBlocks := FirstDesc(g, 0).freeBlocks - 1);
    forall k: nat | k < g.groups
      ensures HasDesc(after, k) && DescAt(after, k) == if k == 0 then d else FirstDesc(g, k)
    {
      DescReadBack(marked, 0, d, k);
    }
    SumChanged(marked, after, g.groups);
    InodeTotal(g, marked, g.groups);
    forall k | 0 <= k < g.groups
      ensures CountsMatch(g, k, after)
    {
      assert GroupDone(g, k, after);
      ClearAreFree(g, k, after);
    }
  }
}
