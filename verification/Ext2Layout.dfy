/** Block groups of an ext2 volume: bitmaps, their free counts, and block addresses
    (sys/fs/ext2/balloc.c, sys/include/fs/ext2.h). */
module Ext2Layout {
  import opened Bytes

  /** The superblock and group descriptor fields that never change. `bitmap[g]` is
      bg_block_bitmap, `blocks` is s_blocks_count. */
  datatype Geometry = Geometry(blockSize: nat, blocksPerGroup: nat, firstDataBlock: nat,
                               bitmap: seq<nat>, blocks: nat)

  /** s_first_data_block is 0 or 1. A bitmap is one block, and its bits can be counted in the
      16 bits of bg_free_blocks_count. */
  predicate GeometryOk(geo: Geometry) {
    && geo.blockSize > 0 && geo.blockSize % 4 == 0
    && 1 < geo.blocksPerGroup <= 8 * geo.blockSize < 0x1_0000
    && geo.firstDataBlock <= 1
    && geo.blocks < 0x1_0000_0000
    && |geo.bitmap| > 0
    && (forall g | 0 <= g < |geo.bitmap| :: 0 < geo.bitmap[g] < geo.blocks)
    && (forall g, h | 0 <= g < h < |geo.bitmap| :: geo.bitmap[g] != geo.bitmap[h])
  }

  // ---------------------------------------------------------------------------------
  // Addresses
  // ---------------------------------------------------------------------------------

  /** The block that bit `off` of group g stands for, as balloc_bgd computes it. */
  function Address(geo: Geometry, g: nat, off: nat): nat {
    off + g * geo.blocksPerGroup + geo.firstDataBlock
  }

  /** The group ext2_bfree looks in for a block... */
  function FreeGroup(geo: Geometry, block: nat): nat
    requires geo.blocksPerGroup > 0
  {
    block / geo.blocksPerGroup
  }

  /** ...and the bit it clears there, in unsigned 32-bit arithmetic. */
  function FreeOff(geo: Geometry, block: nat): nat
    requires geo.blocksPerGroup > 0
  {
    (block - (geo.firstDataBlock + FreeGroup(geo, block) * geo.blocksPerGroup)) % 0x1_0000_0000
  }

  /** ext2_bfree finds the bit of this block. */
  predicate Freeable(geo: Geometry, block: nat)
    requires geo.blocksPerGroup > 0
  {
    block % geo.blocksPerGroup >= geo.firstDataBlock
  }

  lemma DivMod(g: nat, n: nat, r: nat)
    requires r < n
    ensures (g * n + r) / n == g && (g * n + r) % n == r
  {
    DivisionIsUnique(g * n + r, n, g, r);
  }

  lemma NextGroup(g: nat, n: nat)
    ensures (g + 1) * n == g * n + n
  {
  }

  /** ext2_bfree inverts the address of balloc_bgd exactly for the blocks that are not a
      multiple of the group size, or for all blocks when the first data block is 0. */
  lemma FreeInvertsAddress(geo: Geometry, g: nat, off: nat)
    requires GeometryOk(geo) && off < geo.blocksPerGroup && Address(geo, g, off) < 0x1_0000_0000
    ensures var b := Address(geo, g, off);
      FreeGroup(geo, b) == g && FreeOff(geo, b) == off <==> Freeable(geo, b)
  {
    var n, b := geo.blocksPerGroup, Address(geo, g, off);
    if off + geo.firstDataBlock < n {
      DivMod(g, n, off + geo.firstDataBlock);
    } else {
      NextGroup(g, n);
      DivMod(g + 1, n, 0);
    }
  }

  /** With 1024-byte blocks the last block of group 0 is freed in group 1, at a bit that no
      bitmap has. */
  lemma LastBlockOfGroupIsLost()
    ensures var geo := Geometry(1024, 8192, 1, [3, 8195], 16385); var b := Address(geo, 0, 8191);
      GeometryOk(geo) && b == 8192 && FreeGroup(geo, b) == 1 && FreeOff(geo, b) == 0xFFFF_FFFF
  {
    var geo := Geometry(1024, 8192, 1, [3, 8195], 16385);
    assert geo.bitmap[0] == 3 && geo.bitmap[1] == 8195;
    assert Address(geo, 0, 8191) == 8192 && 8192 / 8192 == 1 && (-1) % 0x1_0000_0000 == 0xFFFF_FFFF;
  }

  // ---------------------------------------------------------------------------------
  // Bitmaps and counters
  // ---------------------------------------------------------------------------------

  /** What balloc.c reads and writes: the blocks of the device, the groups' free counts and
      the superblock's. */
  datatype Vol = Vol(disk: seq<Block>, counts: seq<int>, total: int)

  /** Bit `off` of the bitmap of group g. */
  datatype Spot = Spot(g: nat, off: nat)

  predicate Sized(geo: Geometry, disk: seq<Block>) {
    |disk| == geo.blocks && forall b | 0 <= b < |disk| :: |disk[b]| == geo.blockSize
  }

  predicate Bit(geo: Geometry, disk: seq<Block>, g: nat, off: nat)
    requires GeometryOk(geo) && Sized(geo, disk) && g < |geo.bitmap| && off < 8 * geo.blockSize
  {
    BitAt(disk[geo.bitmap[g]], off)
  }

  /** The bits of group g that are clear. */
  ghost function Clear(geo: Geometry, disk: seq<Block>, g: nat): set<nat>
    requires GeometryOk(geo) && Sized(geo, disk) && g < |geo.bitmap|
  {
    set off | 0 <= off < 8 * geo.blockSize && !Bit(geo, disk, g, off)
  }

  /** The bits that are set, over all groups. */
  ghost function Marked(geo: Geometry, disk: seq<Block>): set<Spot>
    requires GeometryOk(geo) && Sized(geo, disk)
  {
    set g, off | 0 <= g < |geo.bitmap| && 0 <= off < 8 * geo.blockSize && Bit(geo, disk, g, off) :: Spot(g, off)
  }

  function Sum(s: seq<int>): int {
    if s == [] then 0 else s[0] + Sum(s[1..])
  }

  lemma {:induction false} SumUpdate(s: seq<int>, i: nat, v: int)
    requires i < |s|
    ensures Sum(s[i := v]) == Sum(s) - s[i] + v
  {
    if i == 0 {
      assert s[0 := v][1..] == s[1..];
    } else {
      assert s[i := v][1..] == s[1..][i - 1 := v];
      SumUpdate(s[1..], i - 1, v);
    }
  }

  /** Each group's free count is the number of clear bits in its bitmap, and the superblock's
      is their sum. */
  ghost predicate Accounted(geo: Geometry, v: Vol)
    requires GeometryOk(geo) && Sized(geo, v.disk)
  {
    && |v.counts| == |geo.bitmap|
    && (forall g | 0 <= g < |geo.bitmap| :: v.counts[g] == |Clear(geo, v.disk, g)|)
    && v.total == Sum(v.counts)
  }

  /** A clear bit stands for a block of the device that is no bitmap and not block 0. */
  predicate SpotOk(geo: Geometry, g: nat, off: nat) {
    && off < geo.blocksPerGroup
    && 0 < Address(geo, g, off) < geo.blocks
    && Address(geo, g, off) !in geo.bitmap
  }

  ghost predicate ClearIsData(geo: Geometry, disk: seq<Block>)
    requires GeometryOk(geo) && Sized(geo, disk)
  {
    forall g, off | 0 <= g < |geo.bitmap| && 0 <= off < 8 * geo.blockSize && !Bit(geo, disk, g, off) ::
      SpotOk(geo, g, off)
  }

  ghost predicate VolOk(geo: Geometry, v: Vol) {
    GeometryOk(geo) && Sized(geo, v.disk) && Accounted(geo, v) && ClearIsData(geo, v.disk)
  }

  /** The disk once bit `off` of group g is set or cleared. */
  function Flipped(geo: Geometry, disk: seq<Block>, g: nat, off: nat, on: bool): seq<Block>
    requires GeometryOk(geo) && Sized(geo, disk) && g < |geo.bitmap| && off < 8 * geo.blockSize
  {
    var bm := geo.bitmap[g];
    disk[bm := WithBitAt(disk[bm], off, on)]
  }

  lemma FlippedBit(geo: Geometry, disk: seq<Block>, g: nat, off: nat, on: bool, h: nat, j: nat)
    requires GeometryOk(geo) && Sized(geo, disk) && g < |geo.bitmap| && off < 8 * geo.blockSize
    requires h < |geo.bitmap| && j < 8 * geo.blockSize
    ensures Sized(geo, Flipped(geo, disk, g, off, on))
    ensures Bit(geo, Flipped(geo, disk, g, off, on), h, j) ==
      if h == g && j == off then on else Bit(geo, disk, h, j)
  {
    WithBitAtBit(disk[geo.bitmap[g]], off, on, j);
  }

  /** Flipping one bit changes the marked set by that bit, and one clear set. */
  lemma FlippedSets(geo: Geometry, disk: seq<Block>, g: nat, off: nat, on: bool)
    requires GeometryOk(geo) && Sized(geo, disk) && g < |geo.bitmap| && off < 8 * geo.blockSize
    ensures var disk' := Flipped(geo, disk, g, off, on);
      && Sized(geo, disk')
      && Marked(geo, disk') == (if on then Marked(geo, disk) + {Spot(g, off)} else Marked(geo, disk) - {Spot(g, off)})
      && (forall h | 0 <= h < |geo.bitmap| :: Clear(geo, disk', h) ==
            if h != g then Clear(geo, disk, h) else if on then Clear(geo, disk, h) - {off} else Clear(geo, disk, h) + {off})
  {
    var disk' := Flipped(geo, disk, g, off, on);
    forall h, j | 0 <= h < |geo.bitmap| && 0 <= j < 8 * geo.blockSize
      ensures Bit(geo, disk', h, j) == if h == g && j == off then on else Bit(geo, disk, h, j)
    {
      FlippedBit(geo, disk, g, off, on, h, j);
    }
  }

  /** The volume once bit `off` of group g is set (on) or cleared, with its counters. */
  function Recorded(geo: Geometry, v: Vol, g: nat, off: nat, on: bool): Vol
    requires GeometryOk(geo) && Sized(geo, v.disk) && g < |geo.bitmap| == |v.counts| && off < 8 * geo.blockSize
  {
    var d := if on then -1 else 1;
    Vol(Flipped(geo, v.disk, g, off, on), v.counts[g := v.counts[g] + d], v.total + d)
  }

  /** Recording an allocation or a free keeps the accounts and the metadata safe. */
  lemma RecordedOk(geo: Geometry, v: Vol, g: nat, off: nat, on: bool)
    requires VolOk(geo, v) && g < |geo.bitmap| && off < 8 * geo.blockSize
    requires Bit(geo, v.disk, g, off) != on
    requires on || SpotOk(geo, g, off)
    ensures VolOk(geo, Recorded(geo, v, g, off, on))
  {
    var v' := Recorded(geo, v, g, off, on);
    FlippedSets(geo, v.disk, g, off, on);
    SumUpdate(v.counts, g, v'.counts[g]);
    assert off in Clear(geo, v.disk, g) <==> on;
    forall h, j | 0 <= h < |geo.bitmap| && 0 <= j < 8 * geo.blockSize && !Bit(geo, v'.disk, h, j)
      ensures SpotOk(geo, h, j)
    {
      FlippedBit(geo, v.disk, g, off, on, h, j);
    }
  }

  /** Blocks that are no bitmap can be written without touching any bit. */
  lemma WriteKeepsBits(geo: Geometry, disk: seq<Block>, b: nat, content: Block)
    requires GeometryOk(geo) && Sized(geo, disk) && b < |disk| && |content| == geo.blockSize && b !in geo.bitmap
    ensures var disk' := disk[b := content];
      && Sized(geo, disk') && Marked(geo, disk') == Marked(geo, disk)
      && (forall g | 0 <= g < |geo.bitmap| :: Clear(geo, disk', g) == Clear(geo, disk, g))
      && (forall g, off | 0 <= g < |geo.bitmap| && 0 <= off < 8 * geo.blockSize ::
            Bit(geo, disk', g, off) == Bit(geo, disk, g, off))
  {
  }

  lemma WriteKeepsVolOk(geo: Geometry, v: Vol, b: nat, content: Block)
    requires VolOk(geo, v) && b < |v.disk| && |content| == geo.blockSize && b !in geo.bitmap
    ensures VolOk(geo, v.(disk := v.disk[b := content]))
  {
    WriteKeepsBits(geo, v.disk, b, content);
  }

  /** A positive total means that some group has a clear bit. */
  lemma {:induction false} SumPositive(s: seq<int>)
    requires forall i | 0 <= i < |s| :: s[i] >= 0
    ensures Sum(s) >= 0 && (Sum(s) > 0 <==> exists i | 0 <= i < |s| :: s[i] > 0)
  {
    if s != [] {
      SumPositive(s[1..]);
      if i :| 0 <= i < |s[1..]| && s[1..][i] > 0 { assert s[i + 1] > 0; }
      if i :| 0 <= i < |s| && s[i] > 0 && i > 0 { assert s[1..][i - 1] > 0; }
    }
  }

  /** The true place of a block: the group and bit whose address it is. */
  function SpotOf(geo: Geometry, b: nat): Spot
    requires geo.blocksPerGroup > 0 && b >= geo.firstDataBlock
  {
    Spot((b - geo.firstDataBlock) / geo.blocksPerGroup, (b - geo.firstDataBlock) % geo.blocksPerGroup)
  }

  lemma SpotOfAddress(geo: Geometry, g: nat, off: nat)
    requires GeometryOk(geo) && off < geo.blocksPerGroup
    ensures SpotOf(geo, Address(geo, g, off)) == Spot(g, off)
  {
    DivMod(g, geo.blocksPerGroup, off);
  }
}
