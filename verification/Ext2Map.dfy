/** From offsets in a file to blocks: bmap_create and its parts (sys/fs/ext2/bmap.c). */
module Ext2Map {
  import opened Bytes
  import opened Ext2Layout
  import opened Ext2Free
  import opened Ext2Alloc
  import opened Ext2Volume
  import opened Ext2Truncate
  import opened Ext2Tree

  // ---------------------------------------------------------------------------------
  // The ranges of logical blocks
  // ---------------------------------------------------------------------------------

  function FirstDouble(geo: Geometry): nat {
    DIRECT_BLOCKS + 1 + WordsPerBlock(geo)
  }

  /** dindir_blocks */
  function DoubleBlocks(geo: Geometry): (n: nat)
    ensures GeometryOk(geo) ==> n > 0
  {
    Times(WordsPerBlock(geo), WordsPerBlock(geo))
  }

  function FirstTriple(geo: Geometry): nat {
    FirstDouble(geo) + DoubleBlocks(geo)
  }

  predicate InIndirect(geo: Geometry, lblk: nat) {
    DIRECT_BLOCKS < lblk < FirstDouble(geo)
  }

  /** The words that bmap_create follows to a logical block outside the indirect range. The
      middle word of the triple-indirect range is the quotient by the words of a block, not
      reduced by them. */
  function NodeOf(geo: Geometry, lblk: nat): Node
    requires GeometryOk(geo)
  {
    var w := WordsPerBlock(geo);
    if lblk <= DIRECT_BLOCKS then Node(lblk, [])
    else if lblk < FirstTriple(geo) then
      var l := if lblk < FirstDouble(geo) then 0 else lblk - FirstDouble(geo);
      Node(DINDIRECT_BLOCK, [Quotient(l, w), Remainder(l, w)])
    else
      var l := lblk - FirstTriple(geo);
      Node(TINDIRECT_BLOCK, [Quotient(l, DoubleBlocks(geo)), Quotient(l, w), Remainder(l, w)])
  }

  /** The logical blocks that are mapped the way ext2 means it, or at least without leaving a
      pointer block. */
  predicate Mapped(geo: Geometry, lblk: nat) {
    !InIndirect(geo, lblk) && lblk < FirstTriple(geo) + DoubleBlocks(geo)
  }

  /** A logical block outside the indirect range has a place in the tree exactly if it is in
      one of the ranges that work. The triple-indirect range works for as many blocks as a
      double-indirect tree has; beyond, the middle word lies outside its block. */
  lemma MappedExactly(geo: Geometry, lblk: nat)
    requires GeometryOk(geo) && !InIndirect(geo, lblk)
    ensures IsNode(geo, NodeOf(geo, lblk)) <==> Mapped(geo, lblk)
    ensures IsData(NodeOf(geo, lblk))
  {
    var w := WordsPerBlock(geo);
    if DIRECT_BLOCKS < lblk < FirstTriple(geo) {
      QuotientBelow(lblk - FirstDouble(geo), w, w);
    } else if lblk >= FirstTriple(geo) {
      var l := lblk - FirstTriple(geo);
      QuotientBelow(l, w, w);
      QuotientBelow(l, DoubleBlocks(geo), 1);
      assert NodeOf(geo, lblk).path[1] == Quotient(l, w);
    }
  }

  /** With any block size, the first block behind the part that works makes the code look at
      the word just behind its pointer block. */
  lemma TripleOverruns(geo: Geometry)
    requires GeometryOk(geo)
    ensures var lblk := FirstTriple(geo) + DoubleBlocks(geo);
      && !IsNode(geo, NodeOf(geo, lblk))
      && NodeOf(geo, lblk).slot == TINDIRECT_BLOCK && NodeOf(geo, lblk).path[1] == WordsPerBlock(geo)
  {
    var w := WordsPerBlock(geo);
    MappedExactly(geo, FirstTriple(geo) + DoubleBlocks(geo));
    QuotientBelow(DoubleBlocks(geo), w, w);
    QuotientBelow(DoubleBlocks(geo), w, w + 1);
  }

  /** The last place on the way to a logical block behind the part that works: the next word
      lies outside its block. */
  function Brink(geo: Geometry, lblk: nat): Node
    requires GeometryOk(geo) && FirstTriple(geo) <= lblk
  {
    var top := Quotient(lblk - FirstTriple(geo), DoubleBlocks(geo));
    if top < WordsPerBlock(geo) then Node(TINDIRECT_BLOCK, [top]) else Node(TINDIRECT_BLOCK, [])
  }

  lemma BrinkIsNode(geo: Geometry, lblk: nat)
    requires GeometryOk(geo) && FirstTriple(geo) <= lblk && !Mapped(geo, lblk)
    ensures IsNode(geo, Brink(geo, lblk))
    ensures Quotient(lblk - FirstTriple(geo), WordsPerBlock(geo)) >= WordsPerBlock(geo)
  {
    var w := WordsPerBlock(geo);
    QuotientBelow(lblk - FirstTriple(geo), w, w);
  }

  /** ext2_bmap reads outside a pointer block. */
  predicate LookupStrays(geo: Geometry, f: File, lblk: nat)
    requires Sane(geo, f)
  {
    FirstTriple(geo) <= lblk && !Mapped(geo, lblk) && (BrinkIsNode(geo, lblk); At(geo, f, Brink(geo, lblk)) != 0)
  }

  lemma QuotientRemainder(a: nat, b: nat, w: nat)
    requires w > 0 && Quotient(a, w) == Quotient(b, w) && Remainder(a, w) == Remainder(b, w)
    ensures a == b
  {
    Division(a, w);
    Division(b, w);
  }

  /** Different logical blocks have different places. */
  lemma PlacesDiffer(geo: Geometry, a: nat, b: nat)
    requires GeometryOk(geo) && Mapped(geo, a) && Mapped(geo, b) && NodeOf(geo, a) == NodeOf(geo, b)
    ensures a == b
  {
    var m, n := NodeOf(geo, a), NodeOf(geo, b);
    if a > DIRECT_BLOCKS {
      var first := if m.slot == DINDIRECT_BLOCK then FirstDouble(geo) else FirstTriple(geo);
      var d := |m.path|;
      assert m.path[d - 2] == n.path[d - 2] && m.path[d - 1] == n.path[d - 1];
      QuotientRemainder(a - first, b - first, WordsPerBlock(geo));
    }
  }

  // ---------------------------------------------------------------------------------
  // A finite map from logical blocks to blocks
  // ---------------------------------------------------------------------------------

  /** ext2_bmap in the ranges that work. */
  function Lookup(geo: Geometry, f: File, lblk: nat): nat
    requires Sane(geo, f) && Mapped(geo, lblk)
  {
    MappedExactly(geo, lblk);
    At(geo, f, NodeOf(geo, lblk))
  }

  // The map in arithmetic, on the words of the disk; w is the number of words of a block.

  lemma MappedRanges(geo: Geometry, w: nat, lblk: nat)
    requires GeometryOk(geo) && geo.blockSize == 4 * w
    ensures Mapped(geo, lblk) <==> lblk <= 11 || 12 + w <= lblk < 12 + w + 2 * (w * w)
  {
    TimesIs(w, w);
  }

  lemma DirectLookup(geo: Geometry, f: File, lblk: nat)
    requires FileOk(geo, f) && lblk <= 11
    ensures Mapped(geo, lblk) && Lookup(geo, f, lblk) == f.ptrs[lblk]
  {
    MappedRanges(geo, geo.blockSize / 4, lblk);
  }

  /** A pointer of the file's tree is 0 or a block of the device. */
  lemma PointerInside(geo: Geometry, f: File, n: Node)
    requires FileOk(geo, f) && IsNode(geo, n)
    ensures At(geo, f, n) == 0 || (At(geo, f, n) < |f.v.disk| && |f.v.disk[At(geo, f, n)]| == geo.blockSize)
  {
    if At(geo, f, n) != 0 {
      assert InUse(geo, f.v.disk, At(geo, f, n));
    }
  }

  /** The block that word i of pointer block p names; 0 if there is no p. */
  function Pointed(disk: seq<Block>, p: nat, i: nat): nat {
    if 0 < p < |disk| && 4 * i + 3 < |disk[p]| then WordAt(disk[p], i) else 0
  }

  lemma AtBelow(geo: Geometry, f: File, slot: nat, path: seq<nat>, i: nat)
    requires FileOk(geo, f) && IsNode(geo, Node(slot, path + [i]))
    ensures IsNode(geo, Node(slot, path))
    ensures At(geo, f, Node(slot, path + [i])) == Pointed(f.v.disk, At(geo, f, Node(slot, path)), i)
  {
    var n := Node(slot, path + [i]);
    assert n.path[|path|] == i && n.path[..|path|] == path;
    assert forall k | 0 <= k < |path| :: n.path[k] == path[k];
    assert Parent(n) == Node(slot, path) && Last(n) == i;
    PointerInside(geo, f, Node(slot, path));
  }

  /** In the double-indirect range, block number i * w + j of the range is named by word j of
      the block that word i of the block in slot 13 names. */
  lemma DoubleLookup(geo: Geometry, f: File, w: nat, i: nat, j: nat)
    requires FileOk(geo, f) && geo.blockSize == 4 * w && i < w && j < w
    ensures Mapped(geo, 12 + w + (i * w + j))
    ensures Lookup(geo, f, 12 + w + (i * w + j)) == Pointed(f.v.disk, Pointed(f.v.disk, f.ptrs[13], i), j)
  {
    DoublePlace(geo, w, i, j);
    assert [] + [i] + [j] == [i, j];
    hide FileOk, At, Mapped, NodeOf, IsNode;
    AtBelow(geo, f, 13, [] + [i], j);
    AtBelow(geo, f, 13, [], i);
    SlotAt(geo, f, 13);
  }

  lemma DoublePlace(geo: Geometry, w: nat, i: nat, j: nat)
    requires GeometryOk(geo) && geo.blockSize == 4 * w && i < w && j < w
    ensures Mapped(geo, 12 + w + (i * w + j))
    ensures NodeOf(geo, 12 + w + (i * w + j)) == Node(13, [i, j]) && IsNode(geo, Node(13, [i, j]))
  {
    InSquare(w, i, j);
    TimesIs(w, w);
    MappedExactly(geo, 12 + w + (i * w + j));
    DivisionIs(i * w + j, w);
  }

  lemma InSquare(w: nat, i: nat, j: nat)
    requires i < w && j < w
    ensures i * w + j < w * w && (i * w + j) / w == i && (i * w + j) % w == j
  {
    BelowProduct(w, w, i, j);
    DivisionIsUnique(i * w + j, w, i, j);
  }

  lemma SlotAt(geo: Geometry, f: File, slot: nat)
    requires Sane(geo, f) && (slot <= 11 || slot == 13 || slot == 14)
    ensures IsNode(geo, Node(slot, [])) && At(geo, f, Node(slot, [])) == f.ptrs[slot]
  {
  }

  /** In the part of the triple-indirect range that works there is a level more, and the first
      word is word 0. */
  lemma TripleLookup(geo: Geometry, f: File, w: nat, i: nat, j: nat)
    requires FileOk(geo, f) && geo.blockSize == 4 * w && i < w && j < w
    ensures Mapped(geo, 12 + w + w * w + (i * w + j))
    ensures Lookup(geo, f, 12 + w + w * w + (i * w + j)) ==
      Pointed(f.v.disk, Pointed(f.v.disk, Pointed(f.v.disk, f.ptrs[14], 0), i), j)
  {
    TriplePlace(geo, w, i, j);
    assert [] + [0] + [i] + [j] == [0, i, j];
    hide FileOk, At, Mapped, NodeOf, IsNode;
    AtBelow(geo, f, 14, [] + [0] + [i], j);
    AtBelow(geo, f, 14, [] + [0], i);
    AtBelow(geo, f, 14, [], 0);
    SlotAt(geo, f, 14);
  }

  /** Behind the part that works, a lookup leaves a pointer block exactly if the block in which
      the word would be is there: the first one below the root, or the root. */
  lemma LookupStraysExactly(geo: Geometry, f: File, w: nat, i: nat, l: nat)
    requires FileOk(geo, f) && geo.blockSize == 4 * w && i * (w * w) <= l < (i + 1) * (w * w) && w * w <= l
    ensures LookupStrays(geo, f, 12 + w + w * w + l) <==>
      if i < w then Pointed(f.v.disk, f.ptrs[14], i) != 0 else f.ptrs[14] != 0
  {
    TimesIs(w, w);
    SlotAt(geo, f, 14);
    BrinkPlace(geo, w, i, l);
    if i < w {
      BrinkIsNode(geo, 12 + w + w * w + l);
      assert [] + [i] == [i];
      AtBelow(geo, f, 14, [], i);
    }
  }

  lemma BrinkPlace(geo: Geometry, w: nat, i: nat, l: nat)
    requires GeometryOk(geo) && geo.blockSize == 4 * w && i * (w * w) <= l < (i + 1) * (w * w) && w * w <= l
    ensures var lblk := 12 + w + w * w + l;
      && FirstTriple(geo) <= lblk && !Mapped(geo, lblk)
      && Brink(geo, lblk) == if i < w then Node(14, [i]) else Node(14, [])
  {
    TimesIs(w, w);
    assert (i + 1) * (w * w) == i * (w * w) + w * w;
    DivisionIsUnique(l, w * w, i, l - i * (w * w));
    DivisionIs(l, w * w);
  }

  lemma SmallDividend(l: nat, n: nat)
    requires l < n
    ensures l / n == 0 && l % n == l && Quotient(l, n) == 0
  {
  }

  lemma TripleNode(geo: Geometry, l: nat)
    requires GeometryOk(geo) && l < DoubleBlocks(geo)
    ensures var lblk, w := FirstTriple(geo) + l, WordsPerBlock(geo);
      && Mapped(geo, lblk) && Quotient(l, w) < w
      && NodeOf(geo, lblk) == Node(TINDIRECT_BLOCK, [0, Quotient(l, w), Remainder(l, w)])
  {
    SmallDividend(l, DoubleBlocks(geo));
    QuotientBelow(l, WordsPerBlock(geo), WordsPerBlock(geo));
  }

  lemma TriplePlace(geo: Geometry, w: nat, i: nat, j: nat)
    requires GeometryOk(geo) && geo.blockSize == 4 * w && i < w && j < w
    ensures Mapped(geo, 12 + w + w * w + (i * w + j))
    ensures NodeOf(geo, 12 + w + w * w + (i * w + j)) == Node(14, [0, i, j]) && IsNode(geo, Node(14, [0, i, j]))
  {
    InSquare(w, i, j);
    TimesIs(w, w);
    MappedExactly(geo, 12 + w + w * w + (i * w + j));
    hide IsNode, Mapped, NodeOf;
    TripleNode(geo, i * w + j);
    DivisionIs(i * w + j, w);
  }

  /** ext2_create_block in the ranges that work. */
  function Created(geo: Geometry, own: nat, f: File, lblk: nat): File
    requires FileOk(geo, f) && own < |geo.bitmap| && Mapped(geo, lblk)
  {
    MappedExactly(geo, lblk);
    Create(geo, own, f, NodeOf(geo, lblk))
  }

  function BlockContent(geo: Geometry, f: File, lblk: nat): (c: Block)
    requires FileOk(geo, f) && Mapped(geo, lblk)
    ensures |c| == geo.blockSize
  {
    MappedExactly(geo, lblk);
    Content(geo, f, NodeOf(geo, lblk))
  }

  /** Creating a block finds a place for it unless the volume is full, moves the block of no
      other logical block and of no logical block that had one, and changes no contents. */
  lemma CreateKeepsMap(geo: Geometry, own: nat, f: File, a: nat, b: nat)
    requires FileOk(geo, f) && own < |geo.bitmap| && Mapped(geo, a) && Mapped(geo, b)
    ensures var f' := Created(geo, own, f, a);
      && FileOk(geo, f')
      && (Lookup(geo, f', a) == 0 ==> f'.v.total == 0)
      && (b != a || Lookup(geo, f, b) != 0 ==> Lookup(geo, f', b) == Lookup(geo, f, b))
      && BlockContent(geo, f', b) == BlockContent(geo, f, b)
  {
    MappedExactly(geo, a);
    MappedExactly(geo, b);
    var f', m, n := Created(geo, own, f, a), NodeOf(geo, a), NodeOf(geo, b);
    assert Added(geo, f, f', m, n);
    GrownIsInvisible(geo, f, f', m, n);
    if a != b {
      if m == n {
        PlacesDiffer(geo, a, b);
      }
      assert Above(n, m) ==> n == m by { DataAbove(n, m); }
    }
  }

  lemma DataAbove(n: Node, m: Node)
    requires IsData(n) && IsData(m)
    ensures Above(n, m) ==> n == m
  {
    if Above(n, m) {
      assert n.path == m.path;
    }
  }

  /** Two logical blocks share neither a block nor a pointer slot. */
  lemma BlocksDiffer(geo: Geometry, f: File, a: nat, b: nat)
    requires FileOk(geo, f) && Mapped(geo, a) && Mapped(geo, b) && a != b
    ensures Lookup(geo, f, a) != 0 ==> Lookup(geo, f, a) != Lookup(geo, f, b)
    ensures var m, n := NodeOf(geo, a), NodeOf(geo, b);
      m.path != [] && n.path != [] ==>
        && IsNode(geo, Parent(m)) && IsNode(geo, Parent(n))
        && (At(geo, f, Parent(m)) != 0 ==> At(geo, f, Parent(m)) != At(geo, f, Parent(n)) || Last(m) != Last(n))
  {
    MappedExactly(geo, a);
    MappedExactly(geo, b);
    var m, n := NodeOf(geo, a), NodeOf(geo, b);
    if m == n {
      PlacesDiffer(geo, a, b);
    }
    if m.path != [] && n.path != [] && Parent(m) == Parent(n) {
      SameNode(m, n);
    }
  }

  // ---------------------------------------------------------------------------------
  // The code
  // ---------------------------------------------------------------------------------

  ghost function FileOf(vol: Volume, ip: Inode): File
    reads vol, vol.disk, vol.freeCount, ip, ip.block
  {
    File(vol.Value(), ip.block[..], ip.sectors)
  }

  ghost predicate Ready(vol: Volume, ip: Inode)
    reads vol, vol.disk, vol.freeCount, ip, ip.block
  {
    Mounted(vol, ip) && FileOk(vol.geo, FileOf(vol, ip))
  }

  /** What looking at one place, with or without creating a block for it, must do. */
  ghost predicate Visited(vol: Volume, ip: Inode, f: File, n: Node, create: bool, block: nat)
    requires ip.num > 0 && vol.inodesPerGroup > 0 && OwnGroup(vol, ip) < |vol.geo.bitmap|
    requires FileOk(vol.geo, f) && IsNode(vol.geo, n)
    reads vol, vol.disk, vol.freeCount, ip, ip.block
  {
    && Ready(vol, ip)
    && FileOf(vol, ip) == (if create then Create(vol.geo, OwnGroup(vol, ip), f, n) else f)
    && block == At(vol.geo, FileOf(vol, ip), n)
  }

  /** A pointer in the inode. */
  method VisitSlot(vol: Volume, ip: Inode, k: nat, create: bool) returns (block: nat)
    requires Ready(vol, ip) && k < 15 && k != INDIRECT_BLOCK
    modifies vol`total, vol.disk, vol.freeCount, ip`sectors, ip`modified, ip.block
    ensures Ready(vol, ip) && Visited(vol, ip, old(FileOf(vol, ip)), Node(k, []), create, block)
  {
    ghost var f := FileOf(vol, ip);
    block := ip.block[k];
    if create && block == 0 {
      block := Balloc(vol, ip);
      ip.block[k] := block;
      ip.modified := true;
      assert FileOf(vol, ip) == GrowOnce(vol.geo, OwnGroup(vol, ip), f, Node(k, []));
    }
  }

  /** A new block for an empty word of a pointer block. */
  method FillWord(vol: Volume, ip: Inode, p: nat, i: nat, ghost n: Node) returns (block: nat)
    requires Ready(vol, ip) && CanGrow(vol.geo, FileOf(vol, ip), n) && n.path != []
    requires Last(n) == i && At(vol.geo, FileOf(vol, ip), Parent(n)) == p
    modifies vol`total, vol.disk, vol.freeCount, ip`sectors, ip`modified
    ensures FileOf(vol, ip) == Grow(vol.geo, OwnGroup(vol, ip), old(FileOf(vol, ip)), n)
    ensures block == Alloc(vol.geo, old(vol.Value()), OwnGroup(vol, ip)).block
  {
    ghost var f := FileOf(vol, ip);
    assert InUse(vol.geo, f.v.disk, p);
    block := Balloc(vol, ip);
    vol.disk[p] := WithWordAt(vol.disk[p], i, block);
    ip.modified := true;
    assert FileOf(vol, ip) == Grow(vol.geo, OwnGroup(vol, ip), f, n);
  }

  /** A pointer in a pointer block, whose address is known and not 0. */
  method VisitWord(vol: Volume, ip: Inode, p: nat, i: nat, create: bool, ghost f: File, ghost n: Node) returns (block: nat)
    requires Ready(vol, ip) && FileOk(vol.geo, f) && IsNode(vol.geo, n) && n.path != [] && Last(n) == i
    requires Visited(vol, ip, f, Parent(n), create, p) && p != 0
    modifies vol`total, vol.disk, vol.freeCount, ip`sectors, ip`modified, ip.block
    ensures Ready(vol, ip) && Visited(vol, ip, f, n, create, block)
  {
    assert InUse(vol.geo, FileOf(vol, ip).v.disk, p);
    block := WordAt(vol.disk[p], i);
    if create && block == 0 {
      ghost var g := FileOf(vol, ip);
      GrowAt(vol.geo, OwnGroup(vol, ip), g, n, n);
      block := FillWord(vol, ip, p, i, n);
      assert FileOf(vol, ip) == GrowOnce(vol.geo, OwnGroup(vol, ip), g, n);
    }
  }

  /** No pointer block, no block. */
  lemma VisitedNothing(vol: Volume, ip: Inode, f: File, n: Node, create: bool)
    requires Ready(vol, ip) && FileOk(vol.geo, f) && IsNode(vol.geo, n) && n.path != []
    requires Visited(vol, ip, f, Parent(n), create, 0)
    ensures Visited(vol, ip, f, n, create, 0)
  {
  }

  /** The last two words on the way to a data block. */
  method VisitTwo(vol: Volume, ip: Inode, p: nat, i: nat, j: nat, create: bool, ghost f: File, ghost n: Node) returns (block: nat)
    requires Ready(vol, ip) && FileOk(vol.geo, f) && IsNode(vol.geo, n) && |n.path| >= 2
    requires Last(Parent(n)) == i && Last(n) == j
    requires Visited(vol, ip, f, Parent(Parent(n)), create, p) && p != 0
    modifies vol`total, vol.disk, vol.freeCount, ip`sectors, ip`modified, ip.block
    ensures Ready(vol, ip) && Visited(vol, ip, f, n, create, block)
  {
    block := VisitWord(vol, ip, p, i, create, f, Parent(n));
    if block == 0 {
      VisitedNothing(vol, ip, f, n, create);
      return;
    }
    block := VisitWord(vol, ip, block, j, create, f, n);
  }

  method BmapDindirect(vol: Volume, ip: Inode, lblk: nat, create: bool) returns (ret: nat)
    requires Ready(vol, ip) && FirstDouble(vol.geo) <= lblk < FirstTriple(vol.geo)
    modifies vol`total, vol.disk, vol.freeCount, ip`sectors, ip`modified, ip.block
    ensures IsNode(vol.geo, NodeOf(vol.geo, lblk))
    ensures Visited(vol, ip, old(FileOf(vol, ip)), NodeOf(vol.geo, lblk), create, ret)
  {
    MappedExactly(vol.geo, lblk);
    ghost var f, n := FileOf(vol, ip), NodeOf(vol.geo, lblk);
    var indirBlocks := vol.geo.blockSize / 4;
    var l := lblk - (DIRECT_BLOCKS + indirBlocks + 1);
    DivisionIs(l, indirBlocks);
    ghost var root := Node(DINDIRECT_BLOCK, []);
    assert Parent(Parent(n)) == root;
    var b := VisitSlot(vol, ip, DINDIRECT_BLOCK, create);
    if b == 0 {
      VisitedNothing(vol, ip, f, Parent(n), create);
      VisitedNothing(vol, ip, f, n, create);
      return 0;
    }
    ret := VisitTwo(vol, ip, b, l / indirBlocks, l % indirBlocks, create, f, n);
  }

  /** What following the pointers to a logical block must do; `stray` tells that it left a
      block on the way. */
  ghost predicate Followed(vol: Volume, ip: Inode, f: File, lblk: nat, create: bool, block: nat, stray: bool)
    requires ip.num > 0 && vol.inodesPerGroup > 0 && OwnGroup(vol, ip) < |vol.geo.bitmap|
    requires FileOk(vol.geo, f) && !InIndirect(vol.geo, lblk)
    reads vol, vol.disk, vol.freeCount, ip, ip.block
  {
    if Mapped(vol.geo, lblk) then
      MappedExactly(vol.geo, lblk);
      !stray && Visited(vol, ip, f, NodeOf(vol.geo, lblk), create, block)
    else
      BrinkIsNode(vol.geo, lblk);
      block == 0 && exists b :: Visited(vol, ip, f, Brink(vol.geo, lblk), create, b) && (stray <==> b != 0)
  }

  /** Where bmap_create_tindirect is going. */
  function Target(geo: Geometry, lblk: nat): (n: Node)
    requires GeometryOk(geo) && FirstTriple(geo) <= lblk
    ensures IsNode(geo, n) && n.slot == TINDIRECT_BLOCK
  {
    if Mapped(geo, lblk) then MappedExactly(geo, lblk); NodeOf(geo, lblk)
    else BrinkIsNode(geo, lblk); Brink(geo, lblk)
  }

  /** The words on the way to the target. */
  lemma TargetPath(geo: Geometry, lblk: nat)
    requires GeometryOk(geo) && FirstTriple(geo) <= lblk
    ensures var w, l, path := WordsPerBlock(geo), lblk - FirstTriple(geo), Target(geo, lblk).path;
      if Quotient(l, w) < w then
        Mapped(geo, lblk) && Quotient(l, DoubleBlocks(geo)) < w &&
        path == [Quotient(l, DoubleBlocks(geo)), Quotient(l, w), Remainder(l, w)]
      else !Mapped(geo, lblk) && path == if Quotient(l, DoubleBlocks(geo)) < w then [Quotient(l, DoubleBlocks(geo))] else []
  {
    var w := WordsPerBlock(geo);
    QuotientBelow(lblk - FirstTriple(geo), w, w);
    if Mapped(geo, lblk) {
      QuotientBelow(lblk - FirstTriple(geo), DoubleBlocks(geo), 1);
    }
  }

  /** No block at a place means none below it. */
  lemma {:induction false} StopsAbove(vol: Volume, ip: Inode, f: File, m: Node, n: Node, create: bool)
    requires Ready(vol, ip) && FileOk(vol.geo, f) && IsNode(vol.geo, m) && IsNode(vol.geo, n) && Above(m, n)
    requires Visited(vol, ip, f, m, create, 0)
    ensures Visited(vol, ip, f, n, create, 0)
    decreases |n.path|
  {
    if m != n {
      assert m.path == n.path[..|m.path|] && Above(m, Parent(n));
      StopsAbove(vol, ip, f, m, Parent(n), create);
      VisitedNothing(vol, ip, f, n, create);
    }
  }

  lemma ReachedTarget(vol: Volume, ip: Inode, f: File, lblk: nat, create: bool, b: nat)
    requires FileOk(vol.geo, f) && FirstTriple(vol.geo) <= lblk && Mounted(vol, ip)
    requires Visited(vol, ip, f, Target(vol.geo, lblk), create, b)
    ensures Followed(vol, ip, f, lblk, create, if Mapped(vol.geo, lblk) then b else 0, !Mapped(vol.geo, lblk) && b != 0)
  {
  }

  method BmapTindirect(vol: Volume, ip: Inode, lblk: nat, create: bool) returns (ret: nat, stray: bool)
    requires Ready(vol, ip) && FirstTriple(vol.geo) <= lblk
    modifies vol`total, vol.disk, vol.freeCount, ip`sectors, ip`modified, ip.block
    ensures Followed(vol, ip, old(FileOf(vol, ip)), lblk, create, ret, stray)
  {
    TargetPath(vol.geo, lblk);
    ghost var f, n := FileOf(vol, ip), Target(vol.geo, lblk);
    ghost var root := Node(TINDIRECT_BLOCK, []);
    hide FileOk, Followed, Mapped, Target, Create, At, Visited, Quotient, Remainder;
    var indirBlocks := vol.geo.blockSize / 4;
    var dindirBlocks := indirBlocks * indirBlocks;
    TimesIs(indirBlocks, indirBlocks);
    var l := lblk - (DIRECT_BLOCKS + indirBlocks + dindirBlocks + 1);
    DivisionIs(l, dindirBlocks);
    DivisionIs(l, indirBlocks);
    var i, j, k := l / dindirBlocks, l / indirBlocks, l % indirBlocks;
    assert n.path == if j < indirBlocks then [i, j, k] else if i < indirBlocks then [i] else [];
    assert j < indirBlocks ==> i < indirBlocks;
    var b := VisitSlot(vol, ip, TINDIRECT_BLOCK, create);
    if b == 0 {
      StopsAbove(vol, ip, f, root, n, create);
      ReachedTarget(vol, ip, f, lblk, create, b);
      return 0, false;
    }
    if i >= indirBlocks {
      ReachedTarget(vol, ip, f, lblk, create, b);
      return 0, true;
    }
    ghost var top := Node(TINDIRECT_BLOCK, [i]);
    assert Parent(top) == root && top.path <= n.path;
    b := VisitWord(vol, ip, b, i, create, f, top);
    if b == 0 {
      StopsAbove(vol, ip, f, top, n, create);
      ReachedTarget(vol, ip, f, lblk, create, b);
      return 0, false;
    }
    if j >= indirBlocks {
      ReachedTarget(vol, ip, f, lblk, create, b);
      return 0, true;
    }
    assert Parent(Parent(n)) == top by {
      assert n.path[..2][..1] == [i];
    }
    ret := VisitTwo(vol, ip, b, j, k, create, f, n);
    ReachedTarget(vol, ip, f, lblk, create, ret);
    stray := false;
  }

  // ---------------------------------------------------------------------------------
  // The indirect range
  // ---------------------------------------------------------------------------------

  /** A signed byte converted to an unsigned 32-bit block number. */
  function SignExtended(b: Byte): nat {
    if b < 128 then b else 0xFFFF_FF00 + b
  }

  ghost predicate IndirectOk(geo: Geometry, f: File) {
    VolOk(geo, f.v) && |f.ptrs| == 15 && (f.ptrs[INDIRECT_BLOCK] == 0 || InUse(geo, f.v.disk, f.ptrs[INDIRECT_BLOCK]))
  }

  function WithIndirect(geo: Geometry, own: nat, f: File): (f': File)
    requires IndirectOk(geo, f) && own < |geo.bitmap|
    ensures IndirectOk(geo, f')
  {
    AllocEffect(geo, f.v, own);
    AllocKeepsUse(geo, f.v, own);
    if f.ptrs[INDIRECT_BLOCK] != 0 then f
    else
      var r := Alloc(geo, f.v, own);
      File(r.v, f.ptrs[INDIRECT_BLOCK := r.block], f.sectors + geo.blockSize / SECTOR_SIZE)
  }

  /** A new block for byte i of the indirect block. */
  function ByteFilled(geo: Geometry, own: nat, f: File, i: nat): (File, nat)
    requires IndirectOk(geo, f) && own < |geo.bitmap| && f.ptrs[INDIRECT_BLOCK] != 0 && i < geo.blockSize
  {
    var p := f.ptrs[INDIRECT_BLOCK];
    var r := Alloc(geo, f.v, own);
    var byte: Byte := r.block % 256;
    (File(r.v.(disk := r.v.disk[p := WithByteAt(r.v.disk[p], i, byte)]), f.ptrs, f.sectors + geo.blockSize / SECTOR_SIZE),
     SignExtended(byte))
  }

  /** What bmap_create_indirect does when asked to create, and what it returns: the indirect
      block is taken as an array of signed bytes. */
  function IndirectCreated(geo: Geometry, own: nat, f: File, lblk: nat): (File, nat)
    requires IndirectOk(geo, f) && own < |geo.bitmap| && InIndirect(geo, lblk)
  {
    var g := WithIndirect(geo, own, f);
    var p := g.ptrs[INDIRECT_BLOCK];
    var i := lblk - (DIRECT_BLOCKS + 1);
    if p == 0 then (g, 0)
    else if g.v.disk[p][i] != 0 then (g, SignExtended(g.v.disk[p][i]))
    else ByteFilled(geo, own, g, i)
  }

  lemma SignedBlock(b: nat)
    requires b < 0x1_0000_0000
    ensures SignExtended(b % 256) == b <==> b < 128 || b >= 0xFFFF_FF80
  {
  }

  /** A block allocated in the indirect range is the one returned exactly if its number fits in
      a signed byte. */
  lemma IndirectTruncates(geo: Geometry, own: nat, f: File, lblk: nat)
    requires IndirectOk(geo, f) && own < |geo.bitmap| && InIndirect(geo, lblk)
    ensures var g := WithIndirect(geo, own, f); var p := g.ptrs[INDIRECT_BLOCK];
      p != 0 ==>
        var b := Alloc(geo, g.v, own).block;
        g.v.disk[p][lblk - (DIRECT_BLOCKS + 1)] == 0 ==>
          (IndirectCreated(geo, own, f, lblk).1 == b <==> b < 128 || b >= 0xFFFF_FF80)
  {
    var g := WithIndirect(geo, own, f);
    if g.ptrs[INDIRECT_BLOCK] != 0 {
      SignedBlock(Alloc(geo, g.v, own).block);
    }
  }

  /** What was returned is kept as a byte, at the logical block's place in the range, and is
      returned again without a further allocation, unless it was 0: then block after block is
      taken for it. */
  lemma IndirectReturnsAgain(geo: Geometry, own: nat, f: File, lblk: nat)
    requires IndirectOk(geo, f) && own < |geo.bitmap| && InIndirect(geo, lblk)
    ensures var (f', b) := IndirectCreated(geo, own, f, lblk);
      b != 0 ==>
        && KeepsByte(geo, f', lblk - 12, b)
        && IndirectCreated(geo, own, f', lblk) == (f', b)
  {
    var (f', b) := IndirectCreated(geo, own, f, lblk);
    if b != 0 {
      CreatedIsKept(geo, own, f, lblk);
      KeptIsFound(geo, own, f', lblk, b);
    }
  }

  lemma CreatedIsKept(geo: Geometry, own: nat, f: File, lblk: nat)
    requires IndirectOk(geo, f) && own < |geo.bitmap| && InIndirect(geo, lblk)
    ensures var (f', b) := IndirectCreated(geo, own, f, lblk); b != 0 ==> KeepsByte(geo, f', lblk - 12, b)
  {
    var g := WithIndirect(geo, own, f);
    if g.ptrs[INDIRECT_BLOCK] != 0 {
      if g.v.disk[g.ptrs[INDIRECT_BLOCK]][lblk - 12] == 0 {
        ByteFilledOk(geo, own, g, lblk - 12);
      } else {
        SignedByte(g.v.disk[g.ptrs[INDIRECT_BLOCK]][lblk - 12]);
      }
    }
    hide VolOk, ByteFilled, WithIndirect;
  }

  /** Byte i of the indirect block stands for b. */
  ghost predicate KeepsByte(geo: Geometry, f: File, i: nat, b: nat) {
    && IndirectOk(geo, f) && f.ptrs[12] != 0 && f.ptrs[12] < |f.v.disk| && i < |f.v.disk[f.ptrs[12]]|
    && f.v.disk[f.ptrs[12]][i] == b % 256 && SignExtended(f.v.disk[f.ptrs[12]][i]) == b
  }

  lemma KeptIsFound(geo: Geometry, own: nat, f: File, lblk: nat, b: nat)
    requires own < |geo.bitmap| && InIndirect(geo, lblk) && KeepsByte(geo, f, lblk - 12, b) && b != 0
    ensures IndirectCreated(geo, own, f, lblk) == (f, b)
  {
  }

  lemma SignedByte(byte: Byte)
    ensures SignExtended(byte) % 256 == byte
  {
  }

  lemma ByteFilledOk(geo: Geometry, own: nat, f: File, i: nat)
    requires IndirectOk(geo, f) && own < |geo.bitmap| && f.ptrs[INDIRECT_BLOCK] != 0 && i < geo.blockSize
    ensures var (f', b) := ByteFilled(geo, own, f, i); KeepsByte(geo, f', i, b)
  {
    var p, r := f.ptrs[INDIRECT_BLOCK], Alloc(geo, f.v, own);
    AllocEffect(geo, f.v, own);
    AllocKeepsUse(geo, f.v, own);
    var byte: Byte := r.block % 256;
    var content := WithByteAt(r.v.disk[p], i, byte);
    WriteKeepsVolOk(geo, r.v, p, content);
    WriteKeepsBits(geo, r.v.disk, p, content);
    SignedByte(byte);
    hide VolOk, SignExtended, Alloc;
  }

  /** Three hundred blocks of 1024 bytes; block 3 is the bitmap, and only block 200 is free. */
  function WideGeometry(): Geometry {
    Geometry(1024, 8192, 1, [3], 300)
  }

  /** Block 200 is bit 199: the last bit of byte 24. */
  function WideDisk(): seq<Block> {
    seq(300, b => seq(1024, i => if b != 3 then 0 else if i == 24 then 127 else 255))
  }

  /** A file with an empty indirect block, block 4. */
  function WideFile(): File {
    File(Vol(WideDisk(), [1], 1), seq(15, k => if k == INDIRECT_BLOCK then 4 else 0), 0)
  }

  lemma WideSized()
    ensures GeometryOk(WideGeometry()) && WideGeometry().bitmap[0] == 3 && Sized(WideGeometry(), WideDisk())
    ensures forall i | 0 <= i < 1024 :: WideDisk()[3][i] == if i == 24 then 127 else 255
    ensures WideDisk()[4][0] == 0
  {
  }

  lemma WideBits(off: nat)
    requires off < 8192 && GeometryOk(WideGeometry()) && Sized(WideGeometry(), WideDisk())
    ensures Bit(WideGeometry(), WideDisk(), 0, off) <==> off != 199
  {
    WideSized();
    AllOnes(off % 8);
    OnesBelowSeven(off % 8);
  }

  lemma OnesBelowSeven(k: nat)
    requires k < 8
    ensures BitOf(127, k) <==> k < 7
  {
    if k < 7 {
      AllOnes(k + 1);
      assert BitOf(255, k + 1) == BitOf(127, k);
    } else {
      assert BitOf(127, 7) == BitOf(63, 6) == BitOf(31, 5) == BitOf(15, 4) == BitOf(7, 3) == BitOf(3, 2) == BitOf(1, 1) == BitOf(0, 0);
    }
  }

  lemma WideVolume()
    ensures GeometryOk(WideGeometry()) && Sized(WideGeometry(), WideDisk())
    ensures VolOk(WideGeometry(), WideFile().v)
    ensures !Bit(WideGeometry(), WideDisk(), 0, 199) && forall off: nat | off < 199 :: Bit(WideGeometry(), WideDisk(), 0, off)
  {
    WideSized();
    var geo, v := WideGeometry(), WideFile().v;
    forall off: nat | off < 8192
      ensures Bit(geo, v.disk, 0, off) <==> off != 199
    {
      WideBits(off);
    }
    assert Clear(geo, v.disk, 0) == {199};
    assert Sum([1]) == 1 by { assert [1][1..] == []; }
  }

  /** The first block created behind the direct ones is block 200, and 4294967240 is returned. */
  lemma IndirectReturnsWrongBlock()
    ensures IndirectOk(WideGeometry(), WideFile())
    ensures Alloc(WideGeometry(), WideFile().v, 0).block == 200
    ensures IndirectCreated(WideGeometry(), 0, WideFile(), 12).1 == 0xFFFF_FFC8
  {
    WideSized();
    WideVolume();
    var geo, f := WideGeometry(), WideFile();
    assert SpotOf(geo, 4) == Spot(0, 3) && Bit(geo, f.v.disk, 0, 3);
    assert InUse(geo, f.v.disk, 4);
    SomeClear(geo, f.v, 0);
    assert FirstClear(geo, f.v.disk, 0, 0) == 199;
  }

  method VisitIndirect(vol: Volume, ip: Inode, create: bool) returns (b: nat)
    requires Mounted(vol, ip) && (create ==> IndirectOk(vol.geo, FileOf(vol, ip)))
    modifies vol`total, vol.disk, vol.freeCount, ip`sectors, ip`modified, ip.block
    ensures Mounted(vol, ip) && b == ip.block[INDIRECT_BLOCK]
    ensures FileOf(vol, ip) == if create then WithIndirect(vol.geo, OwnGroup(vol, ip), old(FileOf(vol, ip))) else old(FileOf(vol, ip))
  {
    b := ip.block[INDIRECT_BLOCK];
    if create && b == 0 {
      b := Balloc(vol, ip);
      ip.block[INDIRECT_BLOCK] := b;
      ip.modified := true;
    }
  }

  method FillByte(vol: Volume, ip: Inode, b: nat, i: nat) returns (ret: nat)
    requires Mounted(vol, ip) && IndirectOk(vol.geo, FileOf(vol, ip))
    requires b == ip.block[INDIRECT_BLOCK] && b != 0 && i < vol.geo.blockSize
    modifies vol`total, vol.disk, vol.freeCount, ip`sectors, ip`modified
    ensures (FileOf(vol, ip), ret) == ByteFilled(vol.geo, OwnGroup(vol, ip), old(FileOf(vol, ip)), i)
  {
    ghost var f := FileOf(vol, ip);
    var block := Balloc(vol, ip);
    var byte: Byte := block % 256;
    vol.disk[b] := WithByteAt(vol.disk[b], i, byte);
    ret := SignExtended(byte);
    ip.modified := true;
    assert FileOf(vol, ip) == ByteFilled(vol.geo, OwnGroup(vol, ip), f, i).0;
  }

  /** Looking up without creating finds nothing here, ever. */
  method BmapIndirect(vol: Volume, ip: Inode, lblk: nat, create: bool) returns (ret: nat)
    requires Mounted(vol, ip) && InIndirect(vol.geo, lblk) && (create ==> IndirectOk(vol.geo, FileOf(vol, ip)))
    modifies vol`total, vol.disk, vol.freeCount, ip`sectors, ip`modified, ip.block
    ensures !create ==> ret == 0 && FileOf(vol, ip) == old(FileOf(vol, ip))
    ensures create ==> (FileOf(vol, ip), ret) == IndirectCreated(vol.geo, OwnGroup(vol, ip), old(FileOf(vol, ip)), lblk)
  {
    ret := 0;
    var i := lblk - (DIRECT_BLOCKS + 1);
    var b := VisitIndirect(vol, ip, create);
    if b != 0 && create {
      ghost var g := FileOf(vol, ip);
      assert g.ptrs[INDIRECT_BLOCK] == b && g.v.disk[b] == vol.disk[b];
      ret := SignExtended(vol.disk[b][i]);
      if ret == 0 {
        ret := FillByte(vol, ip, b, i);
      }
    }
  }

  /** Only creation in the indirect range looks at what its slot points to. */
  ghost predicate CanFollow(geo: Geometry, f: File, lblk: nat, create: bool) {
    FileOk(geo, f) && (InIndirect(geo, lblk) && create ==> IndirectOk(geo, f))
  }

  /** What bmap_create does: in the ranges that work it refines the finite map; in the
      indirect range it finds nothing, or makes bytes of block numbers; behind the part of
      the triple-indirect range that works it finds nothing or leaves a pointer block. */
  ghost predicate Resolved(vol: Volume, ip: Inode, f: File, lblk: nat, create: bool, ret: nat, stray: bool)
    requires ip.num > 0 && vol.inodesPerGroup > 0 && OwnGroup(vol, ip) < |vol.geo.bitmap|
    requires CanFollow(vol.geo, f, lblk, create)
    reads vol, vol.disk, vol.freeCount, ip, ip.block
  {
    if Mapped(vol.geo, lblk) then
      && Ready(vol, ip) && !stray && ret == Lookup(vol.geo, FileOf(vol, ip), lblk)
      && FileOf(vol, ip) == if create then Created(vol.geo, OwnGroup(vol, ip), f, lblk) else f
    else if InIndirect(vol.geo, lblk) then
      && !stray
      && if create then (FileOf(vol, ip), ret) == IndirectCreated(vol.geo, OwnGroup(vol, ip), f, lblk)
         else FileOf(vol, ip) == f && ret == 0
    else Followed(vol, ip, f, lblk, create, ret, stray)
  }

  /** bmap_create */
  method BmapCreate(vol: Volume, ip: Inode, lblk: nat, create: bool) returns (ret: nat, stray: bool)
    requires Ready(vol, ip) && CanFollow(vol.geo, FileOf(vol, ip), lblk, create)
    modifies vol`total, vol.disk, vol.freeCount, ip`sectors, ip`modified, ip.block
    ensures vol.Usable() && Mounted(vol, ip)
    ensures Resolved(vol, ip, old(FileOf(vol, ip)), lblk, create, ret, stray)
  {
    stray := false;
    if lblk <= DIRECT_BLOCKS {
      MappedExactly(vol.geo, lblk);
      ret := VisitSlot(vol, ip, lblk, create);
      return;
    }
    var indirBlocks := vol.geo.blockSize / 4;
    if lblk < indirBlocks + DIRECT_BLOCKS + 1 {
      ret := BmapIndirect(vol, ip, lblk, create);
      return;
    }
    var dindirBlocks := indirBlocks * indirBlocks;
    TimesIs(indirBlocks, indirBlocks);
    if lblk < dindirBlocks + indirBlocks + DIRECT_BLOCKS + 1 {
      MappedExactly(vol.geo, lblk);
      ret := BmapDindirect(vol, ip, lblk, create);
      return;
    }
    ret, stray := BmapTindirect(vol, ip, lblk, create);
  }

  /** The logical block of a byte offset. */
  function LogicalBlock(geo: Geometry, off: nat): nat
    requires geo.blockSize > 0
  {
    Quotient(off, geo.blockSize)
  }

  /** ext2_bmap */
  method Bmap(vol: Volume, ip: Inode, off: nat) returns (ret: nat, stray: bool)
    requires Ready(vol, ip)
    modifies vol`total, vol.disk, vol.freeCount, ip`sectors, ip`modified, ip.block
    ensures Ready(vol, ip) && FileOf(vol, ip) == old(FileOf(vol, ip))
    ensures var lblk := LogicalBlock(vol.geo, off);
      && ret == (if Mapped(vol.geo, lblk) then Lookup(vol.geo, FileOf(vol, ip), lblk) else 0)
      && (stray <==> LookupStrays(vol.geo, FileOf(vol, ip), lblk))
  {
    DivisionIs(off, vol.geo.blockSize);
    ret, stray := BmapCreate(vol, ip, off / vol.geo.blockSize, false);
  }

  /** ext2_create_block */
  method CreateBlock(vol: Volume, ip: Inode, off: nat) returns (ret: nat, stray: bool)
    requires Ready(vol, ip) && CanFollow(vol.geo, FileOf(vol, ip), LogicalBlock(vol.geo, off), true)
    modifies vol`total, vol.disk, vol.freeCount, ip`sectors, ip`modified, ip.block
    ensures Mounted(vol, ip) && Resolved(vol, ip, old(FileOf(vol, ip)), LogicalBlock(vol.geo, off), true, ret, stray)
  {
    DivisionIs(off, vol.geo.blockSize);
    ret, stray := BmapCreate(vol, ip, off / vol.geo.blockSize, true);
  }
}
