/** Freeing blocks and whole pointer trees (sys/fs/ext2/balloc.c, sys/fs/ext2/inode.c). */
module Ext2Free {
  import opened Bytes
  import opened Ext2Layout

  /** AlreadyFree is the panic of ext2_bfree; Wild is an access beyond the descriptor table,
      a bitmap or the device, where the C program has no defined meaning. */
  datatype FreeResult = Freed(v: Vol) | AlreadyFree | Wild

  predicate Countable(geo: Geometry, v: Vol) {
    GeometryOk(geo) && Sized(geo, v.disk) && |v.counts| == |geo.bitmap|
  }

  /** ext2_bfree finds a bit for this block. */
  predicate Located(geo: Geometry, b: nat)
    requires GeometryOk(geo)
  {
    FreeGroup(geo, b) < |geo.bitmap| && FreeOff(geo, b) < 8 * geo.blockSize
  }

  function FreeSpot(geo: Geometry, b: nat): Spot
    requires GeometryOk(geo)
  {
    Spot(FreeGroup(geo, b), FreeOff(geo, b))
  }

  function FreeOne(geo: Geometry, v: Vol, b: nat): (r: FreeResult)
    requires Countable(geo, v)
    ensures r.Freed? ==> Countable(geo, r.v)
  {
    if b == 0 then Freed(v)
    else if !Located(geo, b) then Wild
    else if !Bit(geo, v.disk, FreeGroup(geo, b), FreeOff(geo, b)) then AlreadyFree
    else
      FlippedBit(geo, v.disk, FreeGroup(geo, b), FreeOff(geo, b), false, 0, 0);
      Freed(Recorded(geo, v, FreeGroup(geo, b), FreeOff(geo, b), false))
  }

  /** Freeing blocks one after the other, up to the first that goes wrong. */
  function FreeSeq(geo: Geometry, v: Vol, bs: seq<nat>): (r: FreeResult)
    requires Countable(geo, v)
    ensures r.Freed? ==> Countable(geo, r.v)
  {
    if bs == [] then Freed(v)
    else
      var r := FreeSeq(geo, v, bs[..|bs| - 1]);
      if r.Freed? then FreeOne(geo, r.v, bs[|bs| - 1]) else r
  }

  lemma {:induction false} FreeSeqConcat(geo: Geometry, v: Vol, xs: seq<nat>, bs: seq<nat>)
    requires Countable(geo, v)
    ensures var r := FreeSeq(geo, v, xs);
      FreeSeq(geo, v, xs + bs) == if r.Freed? then FreeSeq(geo, r.v, bs) else r
  {
    if bs == [] {
      assert xs + bs == xs;
    } else {
      FreeSeqConcat(geo, v, xs, bs[..|bs| - 1]);
      assert (xs + bs)[..|xs + bs| - 1] == xs + bs[..|bs| - 1];
    }
  }

  // ---------------------------------------------------------------------------------
  // When freeing a list of blocks works, and what it does
  // ---------------------------------------------------------------------------------

  lemma LocatedAddress(geo: Geometry, b: nat)
    requires GeometryOk(geo) && b < 0x1_0000_0000 && Located(geo, b)
    ensures Address(geo, FreeGroup(geo, b), FreeOff(geo, b)) == b
    ensures FreeOff(geo, b) < geo.blocksPerGroup
  {
    var n := geo.blocksPerGroup;
    assert b == FreeGroup(geo, b) * n + b % n;
  }

  /** Different blocks are found at different bits. */
  lemma FreeSpotInjective(geo: Geometry, a: nat, b: nat)
    requires GeometryOk(geo) && a < 0x1_0000_0000 && b < 0x1_0000_0000
    requires Located(geo, a) && Located(geo, b) && FreeSpot(geo, a) == FreeSpot(geo, b)
    ensures a == b
  {
    LocatedAddress(geo, a);
    LocatedAddress(geo, b);
  }

  lemma AddressOfSpot(geo: Geometry, b: nat)
    requires GeometryOk(geo) && b >= geo.firstDataBlock
    ensures var s := SpotOf(geo, b); s.off < geo.blocksPerGroup && Address(geo, s.g, s.off) == b
  {
    var n, x := geo.blocksPerGroup, b - geo.firstDataBlock;
    assert x == x / n * n + x % n;
  }

  /** ext2_bfree finds the true bit of a block that it can find at all. */
  lemma FreeableIsLocated(geo: Geometry, b: nat)
    requires GeometryOk(geo) && geo.firstDataBlock <= b < 0x1_0000_0000 && Freeable(geo, b)
    requires SpotOf(geo, b).g < |geo.bitmap|
    ensures Located(geo, b) && FreeSpot(geo, b) == SpotOf(geo, b)
  {
    var s := SpotOf(geo, b);
    AddressOfSpot(geo, b);
    FreeInvertsAddress(geo, s.g, s.off);
  }

  predicate Words32(bs: seq<nat>) {
    forall b | b in bs :: 0 < b < 0x1_0000_0000
  }

  predicate Distinct(bs: seq<nat>) {
    forall i, j | 0 <= i < j < |bs| :: bs[i] != bs[j]
  }

  ghost function Spots(geo: Geometry, bs: seq<nat>): set<Spot>
    requires GeometryOk(geo)
  {
    set b | b in bs :: FreeSpot(geo, b)
  }

  ghost predicate AllMarked(geo: Geometry, disk: seq<Block>, bs: seq<nat>)
    requires GeometryOk(geo) && Sized(geo, disk)
  {
    forall b | b in bs :: Located(geo, b) && FreeSpot(geo, b) in Marked(geo, disk)
  }

  predicate BitmapsOnly(geo: Geometry, disk: seq<Block>, disk': seq<Block>) {
    |disk'| == |disk| && forall b | 0 <= b < |disk| && b !in geo.bitmap :: disk'[b] == disk[b]
  }

  lemma FreeOneEffect(geo: Geometry, v: Vol, b: nat)
    requires Countable(geo, v) && 0 < b
    ensures var r := FreeOne(geo, v, b);
      && (r.Freed? <==> Located(geo, b) && FreeSpot(geo, b) in Marked(geo, v.disk))
      && (r.Freed? ==>
            && Marked(geo, r.v.disk) == Marked(geo, v.disk) - {FreeSpot(geo, b)}
            && r.v.total == v.total + 1
            && BitmapsOnly(geo, v.disk, r.v.disk))
  {
    if Located(geo, b) {
      FlippedSets(geo, v.disk, FreeGroup(geo, b), FreeOff(geo, b), false);
    }
  }

  /** Freeing a list works exactly if every block is allocated and none comes twice; it then
      clears exactly their bits and raises the total by their number. */
  lemma {:induction false} FreeSeqExact(geo: Geometry, v: Vol, bs: seq<nat>)
    requires Countable(geo, v) && Words32(bs)
    ensures var r := FreeSeq(geo, v, bs);
      && (r.Freed? <==> AllMarked(geo, v.disk, bs) && Distinct(bs))
      && (r.Freed? ==>
            && Marked(geo, r.v.disk) == Marked(geo, v.disk) - Spots(geo, bs)
            && r.v.total == v.total + |bs|
            && BitmapsOnly(geo, v.disk, r.v.disk))
  {
    if bs != [] {
      var init, b := bs[..|bs| - 1], bs[|bs| - 1];
      assert bs == init + [b] && b in bs && forall x | x in init :: x in bs;
      FreeSeqExact(geo, v, init);
      var r := FreeSeq(geo, v, init);
      if r.Freed? {
        FreeOneEffect(geo, r.v, b);
        LastIsNew(geo, v.disk, init, b);
      }
      assert AllMarked(geo, v.disk, bs) && Distinct(bs) ==> AllMarked(geo, v.disk, init) && Distinct(init);
    }
  }

  lemma LastIsNew(geo: Geometry, disk: seq<Block>, init: seq<nat>, b: nat)
    requires GeometryOk(geo) && Sized(geo, disk) && Words32(init + [b])
    requires AllMarked(geo, disk, init) && Distinct(init)
    ensures Located(geo, b) ==> (FreeSpot(geo, b) in Spots(geo, init) <==> b in init)
    ensures Spots(geo, init + [b]) == Spots(geo, init) + {FreeSpot(geo, b)}
    ensures Distinct(init + [b]) <==> b !in init
    ensures AllMarked(geo, disk, init + [b]) <==> Located(geo, b) && FreeSpot(geo, b) in Marked(geo, disk)
  {
    var bs := init + [b];
    assert b in bs && forall x | x in init :: x in bs;
    if Located(geo, b) && FreeSpot(geo, b) in Spots(geo, init) {
      var a :| a in init && FreeSpot(geo, a) == FreeSpot(geo, b);
      FreeSpotInjective(geo, a, b);
    }
    if b in init {
      var i :| 0 <= i < |init| && init[i] == b;
      assert bs[i] == bs[|init|];
    }
    forall x | x in bs ensures x in init || x == b {}
  }

  /** Freeing blocks that hold no bitmap keeps the accounts. */
  lemma {:induction false} FreeSeqKeepsVolOk(geo: Geometry, v: Vol, bs: seq<nat>)
    requires VolOk(geo, v) && Words32(bs)
    requires forall b | b in bs :: b < geo.blocks && b !in geo.bitmap
    ensures var r := FreeSeq(geo, v, bs); r.Freed? ==> VolOk(geo, r.v)
  {
    if bs != [] {
      var init, b := bs[..|bs| - 1], bs[|bs| - 1];
      assert b in bs && forall x | x in init :: x in bs;
      FreeSeqKeepsVolOk(geo, v, init);
      var r := FreeSeq(geo, v, init);
      if r.Freed? && FreeOne(geo, r.v, b).Freed? {
        LocatedAddress(geo, b);
        RecordedOk(geo, r.v, FreeGroup(geo, b), FreeOff(geo, b), false);
      }
    }
  }

  // ---------------------------------------------------------------------------------
  // Pointer trees
  // ---------------------------------------------------------------------------------

  function WordsPerBlock(geo: Geometry): nat {
    geo.blockSize / 4
  }

  function Word(geo: Geometry, disk: seq<Block>, b: nat, i: nat): nat
    requires GeometryOk(geo) && Sized(geo, disk) && b < |disk| && i < WordsPerBlock(geo)
  {
    WordAt(disk[b], i)
  }

  /** The pointer blocks of the tree below `root` are blocks of the device and no bitmaps.
      Level 0 is a data block, level 1 an indirect block, and so on. */
  predicate TreeOk(geo: Geometry, disk: seq<Block>, root: nat, level: nat)
    requires GeometryOk(geo) && Sized(geo, disk)
    decreases level
  {
    root == 0 || level == 0 ||
    (root < |disk| && root !in geo.bitmap &&
     forall i | 0 <= i < WordsPerBlock(geo) :: TreeOk(geo, disk, Word(geo, disk, root, i), level - 1))
  }

  /** The blocks of a tree in the order in which they are freed: children before parents. */
  function TreeBlocks(geo: Geometry, disk: seq<Block>, root: nat, level: nat): seq<nat>
    requires GeometryOk(geo) && Sized(geo, disk) && TreeOk(geo, disk, root, level)
    decreases level, WordsPerBlock(geo) + 1
  {
    if root == 0 then []
    else if level == 0 then [root]
    else ChildBlocks(geo, disk, root, level - 1, WordsPerBlock(geo)) + [root]
  }

  /** The blocks of the first n trees that `root` points to. */
  function ChildBlocks(geo: Geometry, disk: seq<Block>, root: nat, level: nat, n: nat): seq<nat>
    requires GeometryOk(geo) && Sized(geo, disk) && root != 0 && TreeOk(geo, disk, root, level + 1)
    requires n <= WordsPerBlock(geo)
    decreases level + 1, n
  {
    if n == 0 then []
    else ChildBlocks(geo, disk, root, level, n - 1) + TreeBlocks(geo, disk, Word(geo, disk, root, n - 1), level)
  }

  /** Changing bitmaps only changes no tree. */
  lemma {:induction false} TreeUnchanged(geo: Geometry, disk: seq<Block>, disk': seq<Block>, root: nat, level: nat)
    requires GeometryOk(geo) && Sized(geo, disk) && Sized(geo, disk') && BitmapsOnly(geo, disk, disk')
    requires TreeOk(geo, disk, root, level)
    ensures TreeOk(geo, disk', root, level)
    ensures TreeBlocks(geo, disk', root, level) == TreeBlocks(geo, disk, root, level)
    decreases level, WordsPerBlock(geo) + 1
  {
    if root != 0 && level > 0 {
      forall i | 0 <= i < WordsPerBlock(geo)
        ensures TreeOk(geo, disk', Word(geo, disk', root, i), level - 1)
      {
        TreeUnchanged(geo, disk, disk', Word(geo, disk, root, i), level - 1);
      }
      ChildrenUnchanged(geo, disk, disk', root, level - 1, WordsPerBlock(geo));
    }
  }

  lemma {:induction false} ChildrenUnchanged(geo: Geometry, disk: seq<Block>, disk': seq<Block>,
                                             root: nat, level: nat, n: nat)
    requires GeometryOk(geo) && Sized(geo, disk) && Sized(geo, disk') && BitmapsOnly(geo, disk, disk')
    requires root != 0 && TreeOk(geo, disk, root, level + 1) && TreeOk(geo, disk', root, level + 1)
    requires n <= WordsPerBlock(geo)
    ensures ChildBlocks(geo, disk', root, level, n) == ChildBlocks(geo, disk, root, level, n)
    decreases level + 1, n
  {
    if n > 0 {
      ChildrenUnchanged(geo, disk, disk', root, level, n - 1);
      TreeUnchanged(geo, disk, disk', Word(geo, disk, root, n - 1), level);
    }
  }

  lemma {:induction false} TreeWords32(geo: Geometry, disk: seq<Block>, root: nat, level: nat)
    requires GeometryOk(geo) && Sized(geo, disk) && TreeOk(geo, disk, root, level) && root < 0x1_0000_0000
    ensures Words32(TreeBlocks(geo, disk, root, level))
    decreases level, WordsPerBlock(geo) + 1
  {
    if root != 0 && level > 0 {
      ChildWords32(geo, disk, root, level - 1, WordsPerBlock(geo));
    }
  }

  lemma {:induction false} ChildWords32(geo: Geometry, disk: seq<Block>, root: nat, level: nat, n: nat)
    requires GeometryOk(geo) && Sized(geo, disk) && root != 0 && TreeOk(geo, disk, root, level + 1)
    requires n <= WordsPerBlock(geo)
    ensures Words32(ChildBlocks(geo, disk, root, level, n))
    decreases level + 1, n
  {
    if n > 0 {
      ChildWords32(geo, disk, root, level, n - 1);
      WordBound(disk[root], n - 1);
      TreeWords32(geo, disk, Word(geo, disk, root, n - 1), level);
    }
  }
}
