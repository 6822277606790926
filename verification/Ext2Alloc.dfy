/** Allocating one block (sys/fs/ext2/balloc.c). */
module Ext2Alloc {
  import opened Bytes
  import opened Ext2Layout
  import opened Ext2Free

  // ---------------------------------------------------------------------------------
  // Which block an allocation takes, and what it changes
  // ---------------------------------------------------------------------------------

  /** The lowest clear bit of a group from `off` on. */
  function FirstClear(geo: Geometry, disk: seq<Block>, g: nat, off: nat): (r: nat)
    requires GeometryOk(geo) && Sized(geo, disk) && g < |geo.bitmap|
    requires exists j | off <= j < 8 * geo.blockSize :: !Bit(geo, disk, g, j)
    ensures off <= r < 8 * geo.blockSize && !Bit(geo, disk, g, r)
    ensures forall j | off <= j < r :: Bit(geo, disk, g, j)
    decreases 8 * geo.blockSize - off
  {
    if !Bit(geo, disk, g, off) then off else FirstClear(geo, disk, g, off + 1)
  }

  /** The lowest group from g on with a free count other than 0, or the number of groups. */
  function FirstFree(counts: seq<int>, g: nat): (r: nat)
    requires g <= |counts|
    ensures g <= r <= |counts| && (r < |counts| ==> counts[r] != 0)
    ensures forall h | g <= h < r :: counts[h] == 0
    decreases |counts| - g
  {
    if g == |counts| || counts[g] != 0 then g else FirstFree(counts, g + 1)
  }

  /** The inode's own group if it has a free block, else the lowest group that has one. */
  function GroupFor(counts: seq<int>, own: nat): nat
    requires own < |counts|
  {
    if counts[own] != 0 then own else FirstFree(counts, 0)
  }

  datatype Grant = Grant(v: Vol, block: nat)

  /** The volume once the lowest clear bit of group g is taken. */
  function Take(geo: Geometry, v: Vol, g: nat): Grant
    requires VolOk(geo, v) && g < |geo.bitmap| && v.counts[g] != 0
  {
    SomeClear(geo, v, g);
    var off := FirstClear(geo, v.disk, g, 0);
    Grant(Recorded(geo, v, g, off, true), Address(geo, g, off))
  }

  /** ext2_balloc for an inode of group `own`. It clears the block it returns, and block 0 if
      there is none. */
  function Alloc(geo: Geometry, v: Vol, own: nat): (r: Grant)
    requires VolOk(geo, v) && own < |geo.bitmap|
    ensures Countable(geo, r.v) && r.block < geo.blocks
  {
    assert 0 < geo.bitmap[0] < geo.blocks;
    if v.total == 0 then Grant(v.(disk := v.disk[0 := Zeros(geo.blockSize)]), 0)
    else
      SomeGroup(geo, v, own);
      var t := Take(geo, v, GroupFor(v.counts, own));
      TakeEffect(geo, v, GroupFor(v.counts, own));
      t.(v := t.v.(disk := t.v.disk[t.block := Zeros(geo.blockSize)]))
  }

  lemma SomeClear(geo: Geometry, v: Vol, g: nat)
    requires VolOk(geo, v) && g < |geo.bitmap| && v.counts[g] != 0
    ensures exists off | 0 <= off < 8 * geo.blockSize :: !Bit(geo, v.disk, g, off)
  {
    var off :| off in Clear(geo, v.disk, g);
  }

  /** As long as the superblock counts a free block, some group has one. */
  lemma SomeGroup(geo: Geometry, v: Vol, own: nat)
    requires VolOk(geo, v) && own < |geo.bitmap|
    ensures v.total >= 0
    ensures v.total != 0 <==> GroupFor(v.counts, own) < |v.counts|
    ensures v.total != 0 ==> v.counts[GroupFor(v.counts, own)] != 0
  {
    SumPositive(v.counts);
  }

  lemma TakeEffect(geo: Geometry, v: Vol, g: nat)
    requires VolOk(geo, v) && g < |geo.bitmap| && v.counts[g] != 0
    ensures var t := Take(geo, v, g); var s := SpotOf(geo, t.block);
      && SpotOk(geo, s.g, s.off) && s.g == g && t.block == Address(geo, g, s.off)
      && VolOk(geo, t.v)
      && s !in Marked(geo, v.disk)
      && Marked(geo, t.v.disk) == Marked(geo, v.disk) + {s}
      && BitmapsOnly(geo, v.disk, t.v.disk)
  {
    SomeClear(geo, v, g);
    var off := FirstClear(geo, v.disk, g, 0);
    assert !Bit(geo, v.disk, g, off);
    SpotOfAddress(geo, g, off);
    RecordedOk(geo, v, g, off, true);
    FlippedSets(geo, v.disk, g, off, true);
  }

  /** A block of the volume that may hold data: neither block 0 nor a bitmap. */
  predicate DataBlock(geo: Geometry, b: nat) {
    0 < b < geo.blocks && b !in geo.bitmap
  }

  ghost predicate InUse(geo: Geometry, disk: seq<Block>, b: nat)
    requires GeometryOk(geo) && Sized(geo, disk)
  {
    DataBlock(geo, b) && SpotOf(geo, b) in Marked(geo, disk)
  }

  /** What an allocation promises: it succeeds exactly if the superblock counts a free block,
      returns a block that was not in use, cleared, marks that block and no other, and leaves
      the contents of every other data block alone. */
  ghost predicate Granted(geo: Geometry, v: Vol, r: Grant) {
    && VolOk(geo, v) && VolOk(geo, r.v) && r.block < geo.blocks
    && (r.block != 0 <==> v.total > 0)
    && r.v.disk[r.block] == Zeros(geo.blockSize)
    && (forall b: nat | DataBlock(geo, b) && b != r.block :: r.v.disk[b] == v.disk[b])
    && (if r.block == 0 then r.v.counts == v.counts && r.v.total == v.total && Marked(geo, r.v.disk) == Marked(geo, v.disk)
        else GrantedBlock(geo, v, r))
  }

  ghost predicate GrantedBlock(geo: Geometry, v: Vol, r: Grant)
    requires GeometryOk(geo) && Sized(geo, v.disk) && Sized(geo, r.v.disk)
  {
    && DataBlock(geo, r.block) && !InUse(geo, v.disk, r.block)
    && Marked(geo, r.v.disk) == Marked(geo, v.disk) + {SpotOf(geo, r.block)}
    && r.v.total == v.total - 1
  }

  lemma AllocEffect(geo: Geometry, v: Vol, own: nat)
    requires VolOk(geo, v) && own < |geo.bitmap|
    ensures Granted(geo, v, Alloc(geo, v, own))
  {
    SomeGroup(geo, v, own);
    if v.total == 0 {
      assert 0 < geo.bitmap[0] < geo.blocks;
      ClearedEffect(geo, v, 0);
    } else {
      AllocTakes(geo, v, own);
    }
  }

  /** Which block it is: that of the lowest clear bit of the inode's own group if it has one,
      else of the lowest group that has one. */
  lemma AllocChoice(geo: Geometry, v: Vol, own: nat)
    requires VolOk(geo, v) && own < |geo.bitmap| && v.total > 0
    ensures exists g: nat, off: nat | g < |geo.bitmap| && off < geo.blocksPerGroup ::
      && Alloc(geo, v, own).block == geo.firstDataBlock + g * geo.blocksPerGroup + off
      && off in Clear(geo, v.disk, g) && (forall j: nat | j < off :: j !in Clear(geo, v.disk, g))
      && (if Clear(geo, v.disk, own) != {} then g == own else forall h: nat | h < g :: Clear(geo, v.disk, h) == {})
  {
    SomeGroup(geo, v, own);
    var g := GroupFor(v.counts, own);
    SomeClear(geo, v, g);
    TakeEffect(geo, v, g);
    var off := FirstClear(geo, v.disk, g, 0);
    SpotOfAddress(geo, g, off);
    assert off in Clear(geo, v.disk, g);
    assert v.counts[own] == |Clear(geo, v.disk, own)|;
    forall h: nat | h < |geo.bitmap| && v.counts[h] == 0 ensures Clear(geo, v.disk, h) == {} {}
    assert Alloc(geo, v, own).block == geo.firstDataBlock + g * geo.blocksPerGroup + off;
  }

  lemma AllocTakes(geo: Geometry, v: Vol, own: nat)
    requires VolOk(geo, v) && own < |geo.bitmap| && v.total > 0
    ensures Granted(geo, v, Alloc(geo, v, own))
  {
    SomeGroup(geo, v, own);
    var g := GroupFor(v.counts, own);
    TakeEffect(geo, v, g);
    ClearedEffect(geo, Take(geo, v, g).v, Take(geo, v, g).block);
  }

  lemma ClearedEffect(geo: Geometry, v: Vol, b: nat)
    requires VolOk(geo, v) && b < geo.blocks && b !in geo.bitmap
    ensures var v' := v.(disk := v.disk[b := Zeros(geo.blockSize)]);
      VolOk(geo, v') && Marked(geo, v'.disk) == Marked(geo, v.disk)
  {
    WriteKeepsVolOk(geo, v, b, Zeros(geo.blockSize));
    WriteKeepsBits(geo, v.disk, b, Zeros(geo.blockSize));
  }

  /** What was in use stays in use. */
  lemma AllocKeepsUse(geo: Geometry, v: Vol, own: nat)
    requires VolOk(geo, v) && own < |geo.bitmap|
    ensures VolOk(geo, Alloc(geo, v, own).v)
    ensures var r := Alloc(geo, v, own);
      forall b: nat :: InUse(geo, r.v.disk, b) <==> InUse(geo, v.disk, b) || (b == r.block && b != 0)
  {
    AllocEffect(geo, v, own);
    var r := Alloc(geo, v, own);
    forall b | DataBlock(geo, b) && r.block != 0 && SpotOf(geo, b) == SpotOf(geo, r.block)
      ensures b == r.block
    {
      SameSpot(geo, b, r.block);
    }
  }

  lemma SameSpot(geo: Geometry, a: nat, b: nat)
    requires GeometryOk(geo) && 0 < a && 0 < b && SpotOf(geo, a) == SpotOf(geo, b)
    ensures a == b
  {
  }

  // ---------------------------------------------------------------------------------
  // Block 0
  // ---------------------------------------------------------------------------------

  /** ext2_balloc leaves block 0 of the device alone exactly if the superblock counts a free
      block, or block 0 is all zeros anyway. */
  lemma BlockZeroSpared(geo: Geometry, v: Vol, own: nat)
    requires VolOk(geo, v) && own < |geo.bitmap|
    ensures 0 < geo.blocks
    ensures Alloc(geo, v, own).v.disk[0] == v.disk[0] <==> v.total > 0 || v.disk[0] == Zeros(geo.blockSize)
  {
    assert 0 < geo.bitmap[0] < geo.blocks;
    SomeGroup(geo, v, own);
    if v.total > 0 {
      TakeEffect(geo, v, GroupFor(v.counts, own));
      assert 0 !in geo.bitmap;
    }
  }

  /** All blocks are in use, and those that are no bitmap hold something. */
  function FullVolume(geo: Geometry): Vol {
    Vol(seq(geo.blocks, b => if b in geo.bitmap then AllOf(255, geo.blockSize) else AllOf(7, geo.blockSize)),
        seq(|geo.bitmap|, _ => 0), 0)
  }

  function AllOf(b: Byte, n: nat): (r: Block)
    ensures |r| == n && forall i | 0 <= i < n :: r[i] == b
  {
    seq(n, _ => b)
  }

  lemma {:induction false} NothingAdds(n: nat)
    ensures Sum(seq(n, _ => 0)) == 0
  {
    if n > 0 {
      assert seq(n, _ => 0)[1..] == seq(n - 1, _ => 0);
      NothingAdds(n - 1);
    }
  }

  lemma FullSized(geo: Geometry)
    requires GeometryOk(geo)
    ensures Countable(geo, FullVolume(geo))
    ensures forall b | 0 <= b < geo.blocks :: FullVolume(geo).disk[b][0] == if b in geo.bitmap then 255 else 7
  {
  }

  lemma FullBit(geo: Geometry, g: nat, off: nat)
    requires Countable(geo, FullVolume(geo)) && g < |geo.bitmap| && off < 8 * geo.blockSize
    ensures Bit(geo, FullVolume(geo).disk, g, off)
  {
    AllOnes(off % 8);
    assert geo.bitmap[g] in geo.bitmap;
  }

  lemma FullIsOk(geo: Geometry)
    requires GeometryOk(geo)
    ensures VolOk(geo, FullVolume(geo))
  {
    FullSized(geo);
    var v := FullVolume(geo);
    forall g, off | 0 <= g < |geo.bitmap| && 0 <= off < 8 * geo.blockSize
      ensures Bit(geo, v.disk, g, off)
    {
      FullBit(geo, g, off);
    }
    hide Bit;
    forall g | 0 <= g < |geo.bitmap| ensures Clear(geo, v.disk, g) == {} {}
    NothingAdds(|geo.bitmap|);
  }

  /** On a full volume of any geometry a failed allocation destroys block 0. */
  lemma FullVolumeLosesBlockZero(geo: Geometry, own: nat)
    requires GeometryOk(geo) && own < |geo.bitmap|
    ensures VolOk(geo, FullVolume(geo))
    ensures var r := Alloc(geo, FullVolume(geo), own);
      r.block == 0 && r.v.disk[0] == Zeros(geo.blockSize) != FullVolume(geo).disk[0]
  {
    FullIsOk(geo);
    FullSized(geo);
    assert 0 < geo.bitmap[0] < geo.blocks && 0 !in geo.bitmap;
    assert FullVolume(geo).disk[0][0] == 7 && Zeros(geo.blockSize)[0] == 0;
  }

  // ---------------------------------------------------------------------------------
  // Freeing undoes allocating
  // ---------------------------------------------------------------------------------

  lemma {:induction false} WithBitBack(b: nat, k: nat, on: bool)
    requires BitOf(b, k) != on
    ensures WithBit(WithBit(b, k, on), k, !on) == b
  {
    if k == 0 {
      assert WithBit(b, 0, on) == if on then b + 1 else b - 1;
    } else {
      WithBitBack(b / 2, k - 1, on);
      var c := WithBit(b / 2, k - 1, on);
      assert WithBit(b, k, on) == 2 * c + b % 2;
      assert (2 * c + b % 2) / 2 == c && (2 * c + b % 2) % 2 == b % 2;
    }
  }

  lemma RecordedBack(geo: Geometry, v: Vol, g: nat, off: nat)
    requires Countable(geo, v) && g < |geo.bitmap| && off < 8 * geo.blockSize && !Bit(geo, v.disk, g, off)
    ensures Sized(geo, Recorded(geo, v, g, off, true).disk)
    ensures Recorded(geo, Recorded(geo, v, g, off, true), g, off, false) == v
  {
    var bm := geo.bitmap[g];
    FlippedBit(geo, v.disk, g, off, true, g, off);
    WithBitBack(v.disk[bm][off / 8], off % 8, true);
    var there := Recorded(geo, v, g, off, true);
    assert there.disk[bm] == WithBitAt(v.disk[bm], off, true);
    assert WithBitAt(there.disk[bm], off, false) == v.disk[bm];
    assert there.disk[bm := WithBitAt(there.disk[bm], off, false)] == v.disk;
    assert there.counts[g := there.counts[g] + 1] == v.counts;
  }

  /** Freeing the block that was just allocated restores every bitmap, group count and the
      superblock's count, so that only the block's contents differ, exactly if ext2_bfree can
      find the block; otherwise it goes astray. */
  lemma FreeUndoesAlloc(geo: Geometry, v: Vol, own: nat)
    requires VolOk(geo, v) && own < |geo.bitmap| && v.total > 0
    ensures var r := Alloc(geo, v, own);
      FreeOne(geo, r.v, r.block) ==
      if Freeable(geo, r.block) then Freed(v.(disk := v.disk[r.block := Zeros(geo.blockSize)])) else Wild
  {
    AllocEffect(geo, v, own);
    SomeGroup(geo, v, own);
    var g := GroupFor(v.counts, own);
    var t := Take(geo, v, g);
    TakeEffect(geo, v, g);
    SomeClear(geo, v, g);
    var off := FirstClear(geo, v.disk, g, 0);
    var r := Alloc(geo, v, own);
    var zeros := Zeros(geo.blockSize);
    FreeInvertsAddress(geo, g, off);
    FlippedBit(geo, v.disk, g, off, true, g, off);
    if Freeable(geo, r.block) {
      RecordedBack(geo, v, g, off);
      var there := t.v.disk[t.block := zeros];
      WriteKeepsBits(geo, t.v.disk, t.block, zeros);
      assert Flipped(geo, there, g, off, false) == Flipped(geo, t.v.disk, g, off, false)[t.block := zeros];
    } else {
      StrayBlock(geo, r.block);
    }
  }

  lemma StrayBlock(geo: Geometry, b: nat)
    requires GeometryOk(geo) && !Freeable(geo, b)
    ensures !Located(geo, b)
  {
    var n := geo.blocksPerGroup;
    assert b == FreeGroup(geo, b) * n + b % n;
  }

  // ---------------------------------------------------------------------------------
  // Any sequence of allocations and frees
  // ---------------------------------------------------------------------------------

  /** A call of ext2_balloc for an inode of group `own`, or of ext2_bfree. */
  datatype Op = AllocOp(own: nat) | FreeOp(b: nat)

  /** Blocks that are freed are data blocks. */
  predicate OpOk(geo: Geometry, op: Op) {
    match op
    case AllocOp(own) => own < |geo.bitmap|
    case FreeOp(b) => b == 0 || DataBlock(geo, b)
  }

  /** The accounts survive every operation that does not end in a panic or out of bounds... */
  function AfterOp(geo: Geometry, v: Vol, op: Op): (r: FreeResult)
    requires VolOk(geo, v) && OpOk(geo, op)
    ensures r.Freed? ==> VolOk(geo, r.v)
  {
    match op
    case AllocOp(own) =>
      AllocEffect(geo, v, own);
      Freed(Alloc(geo, v, own).v)
    case FreeOp(b) =>
      FreeOneKeepsVolOk(geo, v, b);
      FreeOne(geo, v, b)
  }

  lemma FreeOneKeepsVolOk(geo: Geometry, v: Vol, b: nat)
    requires VolOk(geo, v) && (b == 0 || DataBlock(geo, b))
    ensures var r := FreeOne(geo, v, b); r.Freed? ==> VolOk(geo, r.v)
  {
    if b != 0 {
      assert [b][..0] == [];
      FreeSeqKeepsVolOk(geo, v, [b]);
      assert FreeSeq(geo, v, [b]) == FreeOne(geo, v, b);
    }
  }

  /** ...and so they do over any sequence of them. */
  function AfterOps(geo: Geometry, v: Vol, ops: seq<Op>): (r: FreeResult)
    requires VolOk(geo, v) && forall op | op in ops :: OpOk(geo, op)
    ensures r.Freed? ==> VolOk(geo, r.v)
    decreases |ops|
  {
    if ops == [] then Freed(v)
    else
      var r := AfterOp(geo, v, ops[0]);
      if r.Freed? then AfterOps(geo, r.v, ops[1..]) else r
  }

  /** The blocks somebody holds after an operation. */
  function HeldAfter(geo: Geometry, v: Vol, held: set<nat>, op: Op): set<nat>
    requires VolOk(geo, v) && OpOk(geo, op)
  {
    match op
    case AllocOp(own) => var b := Alloc(geo, v, own).block; if b == 0 then held else held + {b}
    case FreeOp(b) => held - {b}
  }

  function HeldAfterOps(geo: Geometry, v: Vol, held: set<nat>, ops: seq<Op>): set<nat>
    requires VolOk(geo, v) && forall op | op in ops :: OpOk(geo, op)
    decreases |ops|
  {
    if ops == [] || !AfterOp(geo, v, ops[0]).Freed? then held
    else HeldAfterOps(geo, AfterOp(geo, v, ops[0]).v, HeldAfter(geo, v, held, ops[0]), ops[1..])
  }

  /** Only held blocks are freed, and none that ext2_bfree loses. */
  predicate Disciplined(geo: Geometry, v: Vol, held: set<nat>, ops: seq<Op>)
    requires VolOk(geo, v) && forall op | op in ops :: OpOk(geo, op)
    decreases |ops|
  {
    ops == [] ||
    ((ops[0].FreeOp? ==> ops[0].b in held && Freeable(geo, ops[0].b)) &&
     (AfterOp(geo, v, ops[0]).Freed? ==>
        Disciplined(geo, AfterOp(geo, v, ops[0]).v, HeldAfter(geo, v, held, ops[0]), ops[1..])))
  }

  ghost predicate AllInUse(geo: Geometry, disk: seq<Block>, held: set<nat>)
    requires GeometryOk(geo) && Sized(geo, disk)
  {
    forall b | b in held :: InUse(geo, disk, b)
  }

  lemma OpConserves(geo: Geometry, v: Vol, held: set<nat>, op: Op)
    requires VolOk(geo, v) && OpOk(geo, op) && AllInUse(geo, v.disk, held)
    requires op.FreeOp? ==> op.b in held && Freeable(geo, op.b)
    ensures var r, held' := AfterOp(geo, v, op), HeldAfter(geo, v, held, op);
      && r.Freed? && r.v.total + |held'| == v.total + |held| && AllInUse(geo, r.v.disk, held')
      && (op.AllocOp? ==> Alloc(geo, v, op.own).block !in held)
  {
    match op
    case AllocOp(own) =>
      AllocEffect(geo, v, own);
      AllocKeepsUse(geo, v, own);
    case FreeOp(b) =>
      FreeableIsLocated(geo, b);
      FreeOneEffect(geo, v, b);
      forall a | a in held && a != b
        ensures SpotOf(geo, a) != SpotOf(geo, b)
      {
        if SpotOf(geo, a) == SpotOf(geo, b) { SameSpot(geo, a, b); }
      }
  }

  /** Allocating and freeing what was allocated never goes wrong. No block is handed out twice
      before it is freed, and free blocks and held blocks together stay as many as they were:
      nothing is lost. */
  lemma {:induction false} OpsConserve(geo: Geometry, v: Vol, held: set<nat>, ops: seq<Op>)
    requires VolOk(geo, v) && (forall op | op in ops :: OpOk(geo, op)) && AllInUse(geo, v.disk, held)
    requires Disciplined(geo, v, held, ops)
    ensures var r, held' := AfterOps(geo, v, ops), HeldAfterOps(geo, v, held, ops);
      r.Freed? && r.v.total + |held'| == v.total + |held| && AllInUse(geo, r.v.disk, held')
    decreases |ops|
  {
    if ops != [] {
      OpConserves(geo, v, held, ops[0]);
      OpsConserve(geo, AfterOp(geo, v, ops[0]).v, HeldAfter(geo, v, held, ops[0]), ops[1..]);
    }
  }
}
