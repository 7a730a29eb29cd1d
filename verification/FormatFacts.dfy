// What the formatters put where, block by block and byte by byte.
module FormatFacts {
  import opened Limbs
  import opened Bytes
  import E = Ext4Format
  import B = Bitmaps
  import X = ExfatFormat
  import opened ExfatBoot

  // ------------------------------------------------------------------
  // ext4
  // ------------------------------------------------------------------

  /** Block b of group k is taken: by the superblock and the descriptors, one of the two
      bitmaps, the inode table, the root directory, or as lying past the device. */
  predicate Taken(g: E.Geometry, k: nat, b: nat) {
    var n := 32768 * k + b;
    || b <= g.gdt
    || n == E.BlockBitmap(g, k)
    || n == E.InodeBitmap(g, k)
    || E.InodeTable(g, k) <= n < E.InodeTable(g, k) + g.table
    || (k == 0 && n == E.InodeTable(g, 0) + g.table)
    || n >= g.total
  }

  lemma MarkedAreTaken(c: E.Content, g: E.Geometry, k: nat, b: nat)
    requires E.Planned(g) && k < g.groups && k * E.PER_GROUP <= g.total && E.GroupHolds(g, k)
    requires E.BlockBits(c, g, k) && b < 32768
    ensures B.IsSet(c.bytes, b) <==> Taken(g, k, b)
  {
  }

  /** The first 11 inodes are reserved in group 0; bits past the inodes of a group are set. */
  lemma MarkedInodes(c: E.Content, g: E.Geometry, k: nat, b: nat)
    requires E.InodeBits(c, g, k) && b < 32768
    ensures B.IsSet(c.bytes, b) <==> (k == 0 && b + 1 <= 11) || b >= g.inodes
  {
  }

  // ------------------------------------------------------------------
  // exFAT
  // ------------------------------------------------------------------

  /** Clusters of 4 KiB up to 256 MiB, of 32 KiB up to 32 GiB, of 128 KiB above. */
  lemma ClusterBytes(total: nat)
    ensures var device, cluster := 512 * total, 512 * X.ClusterSize(total);
            && (device <= 256 * 1024 * 1024 ==> cluster == 4 * 1024)
            && (256 * 1024 * 1024 < device <= 32 * 1024 * 1024 * 1024 ==> cluster == 32 * 1024)
            && (device > 32 * 1024 * 1024 * 1024 ==> cluster == 128 * 1024)
  {
  }

  /** The sum is turned right by one place, which halves it modulo 2^32 - 1, and the byte is
      added. */
  lemma StepTurns(s: Sum, b: byte, t: int)
    requires 2 * t == s + (s % 2) * 0xFFFF_FFFF
    ensures Step(s, b) == (t + b as int) % 0x1_0000_0000
  {
  }

  lemma {:induction false} RegionSector(boot: seq<byte>, n: nat, i: nat, j: nat)
    requires |boot| == 512 && i < n && j < 512
    ensures Region(boot, n)[512 * i + j] == PlainSector(boot, i)[j]
    decreases n
  {
    if i < n - 1 {
      RegionSector(boot, n - 1, i, j);
    }
  }

  /** The first nine sectors of a region end in the mark, the first holds the boot sector, and
      the others are empty. */
  lemma RegionBytes(boot: seq<byte>, i: nat, j: nat)
    requires |boot| == 512 && i < 11 && j < 512
    ensures BootRegion(boot)[512 * i + j] ==
            if i < 9 && j == 510 then 0x55 else if i < 9 && j == 511 then 0xAA else if i == 0 then boot[j] else 0
  {
    RegionSector(boot, 11, i, j);
  }
}
