/** Freeing blocks, pointer trees and whole files (sys/fs/ext2/balloc.c, sys/fs/ext2/inode.c). */
module Ext2Truncate {
  import opened Bytes
  import opened Ext2Layout
  import opened Ext2Free
  import opened Ext2Alloc
  import opened Ext2Volume

  /** How a free ends: well, in the panic of ext2_bfree, or out of bounds. */
  datatype Status = Done | Panicked | OutOfBounds

  function StatusOf(r: FreeResult): Status {
    match r
    case Freed(_) => Done
    case AlreadyFree => Panicked
    case Wild => OutOfBounds
  }

  /** The status and, if all went well, the new state are those of freeing `bs` in `v`. */
  ghost predicate Frees(vol: Volume, status: Status, v: Vol, bs: seq<nat>)
    requires Countable(vol.geo, v)
    reads vol, vol.disk, vol.freeCount
  {
    && status == StatusOf(FreeSeq(vol.geo, v, bs))
    && (status.Done? ==> vol.Usable() && vol.Value() == FreeSeq(vol.geo, v, bs).v)
  }

  lemma FreeSeqOne(geo: Geometry, v: Vol, b: nat)
    requires Countable(geo, v)
    ensures FreeSeq(geo, v, [b]) == FreeOne(geo, v, b)
  {
    assert [b][..0] == [];
  }

  method Bfree(vol: Volume, block: nat) returns (status: Status)
    requires vol.Usable()
    modifies vol`total, vol.disk, vol.freeCount
    ensures status == StatusOf(FreeOne(vol.geo, old(vol.Value()), block))
    ensures status.Done? ==> vol.Usable() && vol.Value() == FreeOne(vol.geo, old(vol.Value()), block).v
  {
    var geo := vol.geo;
    if block == 0 {
      return Done;
    }
    var g := block / geo.blocksPerGroup;
    if g >= |geo.bitmap| {
      return OutOfBounds;
    }
    var b := (block - (geo.firstDataBlock + g * geo.blocksPerGroup)) % 0x1_0000_0000;
    if b >= 8 * geo.blockSize {
      return OutOfBounds;
    }
    var bm := vol.disk[geo.bitmap[g]];
    if !BitAt(bm, b) {
      return Panicked;
    }
    ghost var v := vol.Value();
    vol.disk[geo.bitmap[g]] := WithBitAt(bm, b, false);
    vol.freeCount[g] := vol.freeCount[g] + 1;
    vol.total := vol.total + 1;
    assert vol.Value() == Recorded(geo, v, g, b, false);
    return Done;
  }

  /** Words of pointer blocks do not change while blocks are freed. */
  lemma WordsStay(geo: Geometry, v: Vol, bs: seq<nat>, root: nat, level: nat)
    requires Countable(geo, v) && Words32(bs) && FreeSeq(geo, v, bs).Freed?
    requires root != 0 && TreeOk(geo, v.disk, root, level + 1)
    ensures root < geo.blocks && FreeSeq(geo, v, bs).v.disk[root] == v.disk[root]
  {
    FreeSeqExact(geo, v, bs);
  }

  /** One more subtree: what the loop bodies below do. */
  lemma NextChild(geo: Geometry, v: Vol, root: nat, level: nat, n: nat)
    requires Countable(geo, v) && root != 0 && root < 0x1_0000_0000 && TreeOk(geo, v.disk, root, level + 1)
    requires n < WordsPerBlock(geo)
    requires FreeSeq(geo, v, ChildBlocks(geo, v.disk, root, level, n)).Freed?
    ensures var r := FreeSeq(geo, v, ChildBlocks(geo, v.disk, root, level, n));
      var child := Word(geo, v.disk, root, n);
      && root < geo.blocks && r.v.disk[root] == v.disk[root]
      && child < 0x1_0000_0000
      && TreeOk(geo, r.v.disk, child, level)
      && FreeSeq(geo, v, ChildBlocks(geo, v.disk, root, level, n + 1)) ==
           FreeSeq(geo, r.v, TreeBlocks(geo, r.v.disk, child, level))
  {
    var bs := ChildBlocks(geo, v.disk, root, level, n);
    var r := FreeSeq(geo, v, bs);
    var child := Word(geo, v.disk, root, n);
    ChildWords32(geo, v.disk, root, level, n);
    WordsStay(geo, v, bs, root, level);
    FreeSeqExact(geo, v, bs);
    WordBound(v.disk[root], n);
    TreeUnchanged(geo, v.disk, r.v.disk, child, level);
    FreeSeqConcat(geo, v, bs, TreeBlocks(geo, v.disk, child, level));
  }

  /** A failed prefix fails the whole list the same way. */
  lemma {:induction false} FailsEarly(geo: Geometry, v: Vol, root: nat, level: nat, n: nat, m: nat)
    requires Countable(geo, v) && root != 0 && TreeOk(geo, v.disk, root, level + 1)
    requires n <= m <= WordsPerBlock(geo)
    requires !FreeSeq(geo, v, ChildBlocks(geo, v.disk, root, level, n)).Freed?
    ensures FreeSeq(geo, v, ChildBlocks(geo, v.disk, root, level, m)) == FreeSeq(geo, v, ChildBlocks(geo, v.disk, root, level, n))
    decreases m - n
  {
    if n < m {
      FailsEarly(geo, v, root, level, n, m - 1);
      FreeSeqConcat(geo, v, ChildBlocks(geo, v.disk, root, level, m - 1), TreeBlocks(geo, v.disk, Word(geo, v.disk, root, m - 1), level));
    }
  }

  /** At last the pointer block itself, if all trees below it are free. */
  lemma ThenRoot(geo: Geometry, v: Vol, root: nat, level: nat, n: nat)
    requires Countable(geo, v) && root != 0 && TreeOk(geo, v.disk, root, level + 1) && n <= WordsPerBlock(geo)
    requires n == WordsPerBlock(geo) || !FreeSeq(geo, v, ChildBlocks(geo, v.disk, root, level, n)).Freed?
    ensures var r := FreeSeq(geo, v, ChildBlocks(geo, v.disk, root, level, n));
      FreeSeq(geo, v, TreeBlocks(geo, v.disk, root, level + 1)) == if r.Freed? then FreeOne(geo, r.v, root) else r
  {
    var bs := ChildBlocks(geo, v.disk, root, level, WordsPerBlock(geo));
    FreeSeqConcat(geo, v, bs, [root]);
    if FreeSeq(geo, v, bs).Freed? {
      FreeSeqOne(geo, FreeSeq(geo, v, bs).v, root);
    }
    if !FreeSeq(geo, v, ChildBlocks(geo, v.disk, root, level, n)).Freed? {
      FailsEarly(geo, v, root, level, n, WordsPerBlock(geo));
    }
  }

  method BfreeIndirect(vol: Volume, block: nat) returns (status: Status)
    requires vol.Usable() && block < 0x1_0000_0000 && TreeOk(vol.geo, vol.Value().disk, block, 1)
    modifies vol`total, vol.disk, vol.freeCount
    ensures Frees(vol, status, old(vol.Value()), TreeBlocks(vol.geo, old(vol.Value().disk), block, 1))
  {
    if block == 0 {
      return Done;
    }
    ghost var v := vol.Value();
    var bp := vol.disk[block];
    var i := 0;
    status := Done;
    while i < vol.geo.blockSize / 4 && status.Done?
      invariant i <= WordsPerBlock(vol.geo)
      invariant Frees(vol, status, v, ChildBlocks(vol.geo, v.disk, block, 0, i))
    {
      NextChild(vol.geo, v, block, 0, i);
      assert WordAt(bp, i) == Word(vol.geo, v.disk, block, i);
      OneTree(vol.geo, vol.Value(), WordAt(bp, i));
      status := Bfree(vol, WordAt(bp, i));
      i := i + 1;
    }
    ThenRoot(vol.geo, v, block, 0, i);
    if status.Done? {
      status := Bfree(vol, block);
    }
  }

  lemma OneTree(geo: Geometry, v: Vol, b: nat)
    requires Countable(geo, v)
    ensures FreeSeq(geo, v, TreeBlocks(geo, v.disk, b, 0)) == FreeOne(geo, v, b)
  {
    FreeSeqOne(geo, v, b);
  }

  method BfreeDindirect(vol: Volume, block: nat) returns (status: Status)
    requires vol.Usable() && block < 0x1_0000_0000 && TreeOk(vol.geo, vol.Value().disk, block, 2)
    modifies vol`total, vol.disk, vol.freeCount
    ensures Frees(vol, status, old(vol.Value()), TreeBlocks(vol.geo, old(vol.Value().disk), block, 2))
  {
    if block == 0 {
      return Done;
    }
    ghost var v := vol.Value();
    var bp := vol.disk[block];
    var i := 0;
    status := Done;
    while i < vol.geo.blockSize / 4 && status.Done?
      invariant i <= WordsPerBlock(vol.geo)
      invariant Frees(vol, status, v, ChildBlocks(vol.geo, v.disk, block, 1, i))
    {
      NextChild(vol.geo, v, block, 1, i);
      assert WordAt(bp, i) == Word(vol.geo, v.disk, block, i);
      status := BfreeIndirect(vol, WordAt(bp, i));
      i := i + 1;
    }
    ThenRoot(vol.geo, v, block, 1, i);
    if status.Done? {
      status := Bfree(vol, block);
    }
  }

  method BfreeTindirect(vol: Volume, block: nat) returns (status: Status)
    requires vol.Usable() && block < 0x1_0000_0000 && TreeOk(vol.geo, vol.Value().disk, block, 3)
    modifies vol`total, vol.disk, vol.freeCount
    ensures Frees(vol, status, old(vol.Value()), TreeBlocks(vol.geo, old(vol.Value().disk), block, 3))
  {
    if block == 0 {
      return Done;
    }
    ghost var v := vol.Value();
    var bp := vol.disk[block];
    var i := 0;
    status := Done;
    while i < vol.geo.blockSize / 4 && status.Done?
      invariant i <= WordsPerBlock(vol.geo)
      invariant Frees(vol, status, v, ChildBlocks(vol.geo, v.disk, block, 2, i))
    {
      NextChild(vol.geo, v, block, 2, i);
      assert WordAt(bp, i) == Word(vol.geo, v.disk, block, i);
      status := BfreeDindirect(vol, WordAt(bp, i));
      i := i + 1;
    }
    ThenRoot(vol.geo, v, block, 2, i);
    if status.Done? {
      status := Bfree(vol, block);
    }
  }

  // ---------------------------------------------------------------------------------
  // Whole files
  // ---------------------------------------------------------------------------------

  /** The height of the pointer tree below slot k of i_block. */
  function Level(k: nat): nat {
    if k <= DIRECT_BLOCKS then 0 else k - DIRECT_BLOCKS
  }

  predicate FileTreesOk(geo: Geometry, disk: seq<Block>, ptrs: seq<nat>)
    requires GeometryOk(geo) && Sized(geo, disk)
  {
    |ptrs| == 15 && forall k | 0 <= k < 15 :: ptrs[k] < 0x1_0000_0000 && TreeOk(geo, disk, ptrs[k], Level(k))
  }

  /** All blocks, data and pointers, of the first n slots. */
  function SlotBlocks(geo: Geometry, disk: seq<Block>, ptrs: seq<nat>, n: nat): seq<nat>
    requires GeometryOk(geo) && Sized(geo, disk) && FileTreesOk(geo, disk, ptrs) && n <= 15
  {
    if n == 0 then [] else SlotBlocks(geo, disk, ptrs, n - 1) + TreeBlocks(geo, disk, ptrs[n - 1], Level(n - 1))
  }

  function FileBlocks(geo: Geometry, disk: seq<Block>, ptrs: seq<nat>): seq<nat>
    requires GeometryOk(geo) && Sized(geo, disk) && FileTreesOk(geo, disk, ptrs)
  {
    SlotBlocks(geo, disk, ptrs, 15)
  }

  /** The blocks of a tree of pointer blocks: the root, and those of the trees that its words
      name. */
  lemma TreeBlocksAre(geo: Geometry, disk: seq<Block>, root: nat, level: nat, b: nat)
    requires GeometryOk(geo) && Sized(geo, disk) && TreeOk(geo, disk, root, level + 1)
    ensures root != 0 ==> root < |disk| && forall i | 0 <= i < geo.blockSize / 4 :: 4 * i + 3 < |disk[root]| && Word(geo, disk, root, i) == WordAt(disk[root], i)
    ensures b in TreeBlocks(geo, disk, root, level + 1) <==>
      && root != 0
      && (b == root || exists i | 0 <= i < WordsPerBlock(geo) :: b in TreeBlocks(geo, disk, Word(geo, disk, root, i), level))
  {
    if root != 0 {
      ChildBlocksAre(geo, disk, root, level, WordsPerBlock(geo), b);
    }
  }

  lemma {:induction false} ChildBlocksAre(geo: Geometry, disk: seq<Block>, root: nat, level: nat, n: nat, b: nat)
    requires GeometryOk(geo) && Sized(geo, disk) && root != 0 && TreeOk(geo, disk, root, level + 1)
    requires n <= WordsPerBlock(geo)
    ensures b in ChildBlocks(geo, disk, root, level, n) <==>
      exists i | 0 <= i < n :: b in TreeBlocks(geo, disk, Word(geo, disk, root, i), level)
    decreases n
  {
    if n > 0 {
      ChildBlocksAre(geo, disk, root, level, n - 1, b);
    }
  }

  /** The blocks of a file: those that the first twelve pointers name, and those of a tree of one
      level of pointer blocks, of one of two levels, and of one of three. */
  lemma FileBlocksAre(geo: Geometry, disk: seq<Block>, ptrs: seq<nat>, b: nat)
    requires GeometryOk(geo) && Sized(geo, disk) && FileTreesOk(geo, disk, ptrs)
    ensures TreeOk(geo, disk, ptrs[12], 1) && TreeOk(geo, disk, ptrs[13], 2) && TreeOk(geo, disk, ptrs[14], 3)
    ensures b in FileBlocks(geo, disk, ptrs) <==>
      || (b != 0 && b in ptrs[..12])
      || b in TreeBlocks(geo, disk, ptrs[12], 1)
      || b in TreeBlocks(geo, disk, ptrs[13], 2)
      || b in TreeBlocks(geo, disk, ptrs[14], 3)
  {
    DirectBlocksAre(geo, disk, ptrs, 12, b);
    assert SlotBlocks(geo, disk, ptrs, 13) == SlotBlocks(geo, disk, ptrs, 12) + TreeBlocks(geo, disk, ptrs[12], 1);
    assert SlotBlocks(geo, disk, ptrs, 14) == SlotBlocks(geo, disk, ptrs, 13) + TreeBlocks(geo, disk, ptrs[13], 2);
  }

  lemma {:induction false} DirectBlocksAre(geo: Geometry, disk: seq<Block>, ptrs: seq<nat>, n: nat, b: nat)
    requires GeometryOk(geo) && Sized(geo, disk) && FileTreesOk(geo, disk, ptrs) && n <= 12
    ensures b in SlotBlocks(geo, disk, ptrs, n) <==> b != 0 && b in ptrs[..n]
  {
    if n > 0 {
      DirectBlocksAre(geo, disk, ptrs, n - 1, b);
      assert ptrs[..n] == ptrs[..n - 1] + [ptrs[n - 1]];
    }
  }

  lemma {:induction false} SlotWords32(geo: Geometry, disk: seq<Block>, ptrs: seq<nat>, n: nat)
    requires GeometryOk(geo) && Sized(geo, disk) && FileTreesOk(geo, disk, ptrs) && n <= 15
    ensures Words32(SlotBlocks(geo, disk, ptrs, n))
  {
    if n > 0 {
      SlotWords32(geo, disk, ptrs, n - 1);
      TreeWords32(geo, disk, ptrs[n - 1], Level(n - 1));
    }
  }

  lemma NextSlot(geo: Geometry, v: Vol, ptrs: seq<nat>, n: nat)
    requires Countable(geo, v) && FileTreesOk(geo, v.disk, ptrs) && n < 15
    ensures var r := FreeSeq(geo, v, SlotBlocks(geo, v.disk, ptrs, n));
      if r.Freed? then
        && TreeOk(geo, r.v.disk, ptrs[n], Level(n))
        && FreeSeq(geo, v, SlotBlocks(geo, v.disk, ptrs, n + 1)) ==
             FreeSeq(geo, r.v, TreeBlocks(geo, r.v.disk, ptrs[n], Level(n)))
      else FreeSeq(geo, v, SlotBlocks(geo, v.disk, ptrs, n + 1)) == r
  {
    var bs := SlotBlocks(geo, v.disk, ptrs, n);
    var r := FreeSeq(geo, v, bs);
    FreeSeqConcat(geo, v, bs, TreeBlocks(geo, v.disk, ptrs[n], Level(n)));
    if r.Freed? {
      SlotWords32(geo, v.disk, ptrs, n);
      FreeSeqExact(geo, v, bs);
      TreeUnchanged(geo, v.disk, r.v.disk, ptrs[n], Level(n));
    }
  }

  lemma {:induction false} FailsInSlot(geo: Geometry, v: Vol, ptrs: seq<nat>, n: nat, m: nat)
    requires Countable(geo, v) && FileTreesOk(geo, v.disk, ptrs) && n <= m <= 15
    requires !FreeSeq(geo, v, SlotBlocks(geo, v.disk, ptrs, n)).Freed?
    ensures FreeSeq(geo, v, SlotBlocks(geo, v.disk, ptrs, m)) == FreeSeq(geo, v, SlotBlocks(geo, v.disk, ptrs, n))
    decreases m - n
  {
    if n < m {
      NextSlot(geo, v, ptrs, n);
      FailsInSlot(geo, v, ptrs, n + 1, m);
    }
  }

  /** ext2_itrunc. It ends well exactly if the blocks of the file are allocated and pairwise
      distinct. It then clears their bits and no others, raises the superblock's count by
      their number, touches nothing but bitmaps, and leaves an empty inode. */
  method Itrunc(vol: Volume, ip: Inode) returns (status: Status)
    requires ip.Valid() && vol.Usable() && FileTreesOk(vol.geo, vol.Value().disk, ip.block[..])
    modifies vol`total, vol.disk, vol.freeCount, ip, ip.block
    ensures var v := old(vol.Value()); var blocks := FileBlocks(vol.geo, v.disk, old(ip.block[..]));
      && Frees(vol, status, v, blocks)
      && (status.Done? <==> AllMarked(vol.geo, v.disk, blocks) && Distinct(blocks))
      && (status.Done? ==>
            && Marked(vol.geo, vol.Value().disk) == Marked(vol.geo, v.disk) - Spots(vol.geo, blocks)
            && vol.total == v.total + |blocks|
            && BitmapsOnly(vol.geo, v.disk, vol.Value().disk))
      && (status.Done? && VolOk(vol.geo, v) && (forall b | b in blocks :: DataBlock(vol.geo, b)) ==> vol.Valid())
    ensures status.Done? ==> ip.Valid() && (forall k | 0 <= k < 15 :: ip.block[k] == 0) && ip.sectors == ip.size == 0 && ip.modified
  {
    ghost var v, ptrs := vol.Value(), ip.block[..];
    SlotWords32(vol.geo, v.disk, ptrs, 15);
    FreeSeqExact(vol.geo, v, FileBlocks(vol.geo, v.disk, ptrs));
    if VolOk(vol.geo, v) && forall b | b in FileBlocks(vol.geo, v.disk, ptrs) :: DataBlock(vol.geo, b) {
      FreeSeqKeepsVolOk(vol.geo, v, FileBlocks(vol.geo, v.disk, ptrs));
    }
    status := ItruncSlots(vol, ip);
    if status.Done? {
      ip.sectors, ip.size, ip.modified := 0, 0, true;
    }
  }

  /** The first n slots have been freed and cleared, or that has failed. */
  ghost predicate SlotsFreed(vol: Volume, ip: Inode, status: Status, v: Vol, ptrs: seq<nat>, n: nat)
    requires Countable(vol.geo, v) && FileTreesOk(vol.geo, v.disk, ptrs) && n <= 15
    reads vol, vol.disk, vol.freeCount, ip, ip.block
  {
    && ip.Valid()
    && Frees(vol, status, v, SlotBlocks(vol.geo, v.disk, ptrs, n))
    && (status.Done? ==> forall j | 0 <= j < 15 :: ip.block[j] == if j < n then 0 else ptrs[j])
  }

  method ItruncSlots(vol: Volume, ip: Inode) returns (status: Status)
    requires ip.Valid() && vol.Usable() && FileTreesOk(vol.geo, vol.Value().disk, ip.block[..])
    modifies vol`total, vol.disk, vol.freeCount, ip.block
    ensures SlotsFreed(vol, ip, status, old(vol.Value()), old(ip.block[..]), 15)
  {
    ghost var v, ptrs := vol.Value(), ip.block[..];
    status := Done;
    var k := 0;
    while k <= DIRECT_BLOCKS && status.Done?
      invariant k <= INDIRECT_BLOCK && SlotsFreed(vol, ip, status, v, ptrs, k)
    {
      status := FreeSlot(vol, ip, k, v, ptrs);
      k := k + 1;
    }
    if !status.Done? {
      FailsInSlot(vol.geo, v, ptrs, k, 15);
      return;
    }
    status := FreeSlot(vol, ip, INDIRECT_BLOCK, v, ptrs);
    if !status.Done? {
      FailsInSlot(vol.geo, v, ptrs, DINDIRECT_BLOCK, 15);
      return;
    }
    status := FreeSlot(vol, ip, DINDIRECT_BLOCK, v, ptrs);
    if !status.Done? {
      FailsInSlot(vol.geo, v, ptrs, TINDIRECT_BLOCK, 15);
      return;
    }
    status := FreeSlot(vol, ip, TINDIRECT_BLOCK, v, ptrs);
  }

  /** Frees the tree of slot k with the function for its height, and clears the slot. */
  method FreeSlot(vol: Volume, ip: Inode, k: nat, ghost v: Vol, ghost ptrs: seq<nat>) returns (status: Status)
    requires Countable(vol.geo, v) && FileTreesOk(vol.geo, v.disk, ptrs) && k < 15
    requires SlotsFreed(vol, ip, Done, v, ptrs, k)
    modifies vol`total, vol.disk, vol.freeCount, ip.block
    ensures SlotsFreed(vol, ip, status, v, ptrs, k + 1)
  {
    NextSlot(vol.geo, v, ptrs, k);
    status := FreeTree(vol, ip.block[k], k);
    ip.block[k] := 0;
  }

  method FreeTree(vol: Volume, block: nat, k: nat) returns (status: Status)
    requires vol.Usable() && k < 15 && block < 0x1_0000_0000 && TreeOk(vol.geo, vol.Value().disk, block, Level(k))
    modifies vol`total, vol.disk, vol.freeCount
    ensures Frees(vol, status, old(vol.Value()), TreeBlocks(vol.geo, old(vol.Value().disk), block, Level(k)))
  {
    if k <= DIRECT_BLOCKS {
      OneTree(vol.geo, vol.Value(), block);
      status := Bfree(vol, block);
    } else if k == INDIRECT_BLOCK {
      status := BfreeIndirect(vol, block);
    } else if k == DINDIRECT_BLOCK {
      status := BfreeDindirect(vol, block);
    } else {
      status := BfreeTindirect(vol, block);
    }
  }
}
