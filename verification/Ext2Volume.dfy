/** A mounted ext2 volume and the inodes in memory, and allocating blocks
    (sys/fs/ext2/balloc.c). */
module Ext2Volume {
  import opened Bytes
  import opened Ext2Layout
  import opened Ext2Free
  import opened Ext2Alloc

  const DIRECT_BLOCKS: nat := 11
  const INDIRECT_BLOCK: nat := 12
  const DINDIRECT_BLOCK: nat := 13
  const TINDIRECT_BLOCK: nat := 14
  const SECTOR_SIZE: nat := 512

  /** The device behind a transparent buffer cache, and the in-memory superblock with the
      group descriptor table. */
  class Volume {
    const geo: Geometry
    const inodesPerGroup: nat
    const disk: array<Block>
    const freeCount: array<int>
    var total: int

    ghost function Value(): Vol
      reads this, disk, freeCount
    {
      Vol(disk[..], freeCount[..], total)
    }

    /** Fit to free blocks: counters need not agree with the bitmaps. */
    ghost predicate Usable()
      reads this, disk, freeCount
    {
      inodesPerGroup > 0 && Countable(geo, Value())
    }

    ghost predicate Valid()
      reads this, disk, freeCount
    {
      Usable() && VolOk(geo, Value())
    }

    constructor (geo: Geometry, inodesPerGroup: nat, blocks: seq<Block>, counts: seq<int>, total: int)
      requires inodesPerGroup > 0 && VolOk(geo, Vol(blocks, counts, total))
      ensures Valid() && fresh(disk) && fresh(freeCount)
      ensures this.geo == geo && this.inodesPerGroup == inodesPerGroup && Value() == Vol(blocks, counts, total)
    {
      this.geo, this.inodesPerGroup, this.total := geo, inodesPerGroup, total;
      disk := new Block[|blocks|](i requires 0 <= i < |blocks| => blocks[i]);
      freeCount := new int[|counts|](i requires 0 <= i < |counts| => counts[i]);
      new;
      assert disk[..] == blocks && freeCount[..] == counts;
    }
  }

  /** struct ext2_inode_m: its number, the 15 pointers of i_block, i_blocks, i_size, and
      I_MODIFIED. */
  class Inode {
    const num: nat
    const block: array<nat>
    var sectors: nat
    var size: Word32
    var modified: bool

    ghost predicate Valid()
      reads this, block
    {
      num > 0 && block.Length == 15
    }
  }

  ghost predicate Mounted(vol: Volume, ip: Inode)
    reads vol, vol.disk, vol.freeCount, ip, ip.block
  {
    ip.Valid() && vol.Usable() && OwnGroup(vol, ip) < |vol.geo.bitmap|
  }

  function OwnGroup(vol: Volume, ip: Inode): nat
    requires ip.num > 0 && vol.inodesPerGroup > 0
  {
    (ip.num - 1) / vol.inodesPerGroup
  }

  // ---------------------------------------------------------------------------------
  // Allocation
  // ---------------------------------------------------------------------------------

  /** Where the scan of a bitmap stops: at the lowest clear bit. */
  method ScanBitmap(bm: Block, bits: nat) returns (off: nat)
    requires bits == 8 * |bm|
    requires exists j | 0 <= j < bits :: !BitAt(bm, j)
    ensures off < bits && !BitAt(bm, off)
    ensures forall j | 0 <= j < off :: BitAt(bm, j)
  {
    var p := 0;
    off := 0;
    while p < |bm|
      invariant p == off / 8 && off <= bits
      invariant forall j | 0 <= j < off :: BitAt(bm, j)
      decreases bits - off
    {
      if !BitOf(bm[p], off % 8) {
        break;
      }
      off := off + 1;
      if off % 8 == 0 {
        p := p + 1;
      }
    }
  }

  method BallocBgd(vol: Volume, g: nat) returns (block: nat)
    requires vol.Valid() && g < |vol.geo.bitmap|
    modifies vol`total, vol.disk, vol.freeCount
    ensures vol.Usable()
    ensures old(vol.freeCount[g]) == 0 ==> block == 0 && vol.Value() == old(vol.Value())
    ensures old(vol.freeCount[g]) != 0 ==> Grant(vol.Value(), block) == Take(vol.geo, old(vol.Value()), g)
  {
    if vol.freeCount[g] == 0 {
      block := 0;
      return;
    }
    ghost var v := vol.Value();
    var bitmap := vol.geo.bitmap[g];
    var bm := vol.disk[bitmap];
    SomeClear(vol.geo, v, g);
    assert forall j | 0 <= j < 8 * vol.geo.blockSize :: Bit(vol.geo, v.disk, g, j) == BitAt(bm, j);
    var off := ScanBitmap(bm, 8 * vol.geo.blockSize);
    assert off == FirstClear(vol.geo, v.disk, g, 0);
    vol.disk[bitmap] := WithBitAt(bm, off, true);
    block := off;
    block := block + g * vol.geo.blocksPerGroup + vol.geo.firstDataBlock;
    vol.freeCount[g] := vol.freeCount[g] - 1;
    vol.total := vol.total - 1;
    assert vol.Value() == Recorded(vol.geo, v, g, off, true);
    RecordedOk(vol.geo, v, g, off, true);
  }

  /** ext2_balloc. The block count of the inode grows even if there is no block. */
  method Balloc(vol: Volume, ip: Inode) returns (block: nat)
    requires Mounted(vol, ip) && vol.Valid()
    modifies vol`total, vol.disk, vol.freeCount, ip`sectors, ip`modified
    ensures Mounted(vol, ip) && vol.Valid()
    ensures Grant(vol.Value(), block) == Alloc(vol.geo, old(vol.Value()), OwnGroup(vol, ip))
    ensures ip.sectors == old(ip.sectors) + vol.geo.blockSize / SECTOR_SIZE && ip.modified
    ensures ip.block[..] == old(ip.block[..])
  {
    ghost var v := vol.Value();
    SomeGroup(vol.geo, v, OwnGroup(vol, ip));
    AllocEffect(vol.geo, v, OwnGroup(vol, ip));
    block := 0;
    if vol.total != 0 {
      block := BallocAny(vol, OwnGroup(vol, ip));
    }
    vol.disk[block] := Zeros(vol.geo.blockSize);
    ip.sectors := ip.sectors + vol.geo.blockSize / SECTOR_SIZE;
    ip.modified := true;
    assert vol.Value() == Alloc(vol.geo, v, OwnGroup(vol, ip)).v;
  }

  /** Own group first, then the others in order. */
  method BallocAny(vol: Volume, own: nat) returns (block: nat)
    requires vol.Valid() && own < |vol.geo.bitmap| && vol.total != 0
    modifies vol`total, vol.disk, vol.freeCount
    ensures vol.Usable()
    ensures old(GroupFor(vol.freeCount[..], own) < vol.freeCount.Length && vol.freeCount[GroupFor(vol.freeCount[..], own)] != 0)
    ensures Grant(vol.Value(), block) == Take(vol.geo, old(vol.Value()), GroupFor(old(vol.freeCount[..]), own))
  {
    ghost var v := vol.Value();
    ghost var chosen := GroupFor(v.counts, own);
    SomeGroup(vol.geo, v, own);
    TakeEffect(vol.geo, v, chosen);
    block := BallocBgd(vol, own);
    var g := 0;
    while block == 0 && g < |vol.geo.bitmap|
      invariant g <= |vol.geo.bitmap| && vol.Usable()
      invariant block == 0 ==> vol.Value() == v && v.counts[own] == 0 && forall h | 0 <= h < g :: v.counts[h] == 0
      invariant block != 0 ==> Grant(vol.Value(), block) == Take(vol.geo, v, chosen)
      decreases |vol.geo.bitmap| - g
    {
      if g != own {
        block := BallocBgd(vol, g);
      }
      g := g + 1;
    }
  }
}
