/** The pointer tree of a file as a finite map from places in the tree to blocks, and what
    adding one block to it changes (sys/fs/ext2/bmap.c). */
module Ext2Tree {
  import opened Bytes
  import opened Ext2Layout
  import opened Ext2Free
  import opened Ext2Alloc
  import opened Ext2Volume
  import opened Ext2Truncate

  /** A place for a block: the slot of i_block it hangs from, and the word to follow in each
      pointer block on the way down. */
  datatype Node = Node(slot: nat, path: seq<nat>)

  /** A volume, and the pointers and block count of one inode. */
  datatype File = File(v: Vol, ptrs: seq<nat>, sectors: nat)

  /** Slot 12 is left to `Ext2Map.Indirect`. */
  predicate IsNode(geo: Geometry, n: Node) {
    && n.slot < 15 && n.slot != INDIRECT_BLOCK
    && |n.path| <= Level(n.slot)
    && (forall i | 0 <= i < |n.path| :: n.path[i] < WordsPerBlock(geo))
  }

  /** Pointer blocks are above the bottom of the tree, data blocks at the bottom. */
  predicate IsData(n: Node) {
    |n.path| == Level(n.slot)
  }

  function Parent(n: Node): Node
    requires n.path != []
  {
    Node(n.slot, n.path[..|n.path| - 1])
  }

  function Last(n: Node): nat
    requires n.path != []
  {
    n.path[|n.path| - 1]
  }

  predicate Sane(geo: Geometry, f: File) {
    GeometryOk(geo) && Sized(geo, f.v.disk) && |f.ptrs| == 15
  }

  /** The block at a place, 0 if there is none. */
  function At(geo: Geometry, f: File, n: Node): nat
    requires Sane(geo, f) && IsNode(geo, n)
    decreases |n.path|
  {
    if n.path == [] then f.ptrs[n.slot]
    else
      var p := At(geo, f, Parent(n));
      if p == 0 || p >= |f.v.disk| then 0 else Word(geo, f.v.disk, p, Last(n))
  }

  /** Every block of the tree is an allocated data block, and no block is at two places. */
  ghost predicate FileOk(geo: Geometry, f: File) {
    && VolOk(geo, f.v) && Sane(geo, f)
    && (forall n | IsNode(geo, n) && At(geo, f, n) != 0 :: InUse(geo, f.v.disk, At(geo, f, n)))
    && (forall m, n | IsNode(geo, m) && IsNode(geo, n) && At(geo, f, m) != 0 && m != n :: At(geo, f, m) != At(geo, f, n))
  }

  /** m is n or above it. */
  predicate Above(m: Node, n: Node) {
    m.slot == n.slot && m.path <= n.path
  }

  // ---------------------------------------------------------------------------------
  // One new block
  // ---------------------------------------------------------------------------------

  predicate CanGrow(geo: Geometry, f: File, n: Node)
    requires Sane(geo, f)
  {
    IsNode(geo, n) && At(geo, f, n) == 0 && (n.path != [] ==> At(geo, f, Parent(n)) != 0)
  }

  /** The block allocated is stored in the slot of n, and so is a 0 if there is none. */
  function Grow(geo: Geometry, own: nat, f: File, n: Node): File
    requires FileOk(geo, f) && own < |geo.bitmap| && CanGrow(geo, f, n)
  {
    var r := Alloc(geo, f.v, own);
    var sectors := f.sectors + geo.blockSize / SECTOR_SIZE;
    if n.path == [] then File(r.v, f.ptrs[n.slot := r.block], sectors)
    else
      var p := At(geo, f, Parent(n));
      assert InUse(geo, f.v.disk, p);
      File(r.v.(disk := r.v.disk[p := WithWordAt(r.v.disk[p], Last(n), r.block)]), f.ptrs, sectors)
  }

  /** Only the block of n's parent, the new block, block 0 and bitmaps are written. */
  lemma GrowWrites(geo: Geometry, own: nat, f: File, n: Node)
    requires FileOk(geo, f) && own < |geo.bitmap| && CanGrow(geo, f, n)
    ensures Sane(geo, Grow(geo, own, f, n))
    ensures var r := Alloc(geo, f.v, own); var f' := Grow(geo, own, f, n);
      && VolOk(geo, f'.v)
      && Granted(geo, f.v, r)
      && (forall b: nat | DataBlock(geo, b) && b != r.block && (n.path == [] || b != At(geo, f, Parent(n))) ::
            f'.v.disk[b] == f.v.disk[b])
      && (r.block != 0 ==> f'.v.disk[r.block] == Zeros(geo.blockSize))
      && (n.path != [] ==> var p := At(geo, f, Parent(n));
            DataBlock(geo, p) && p != r.block && f'.v.disk[p] == WithWordAt(f.v.disk[p], Last(n), r.block))
      && f'.v.total == r.v.total
      && Marked(geo, f'.v.disk) == Marked(geo, r.v.disk)
  {
    AllocEffect(geo, f.v, own);
    var r := Alloc(geo, f.v, own);
    if n.path != [] {
      var p := At(geo, f, Parent(n));
      assert InUse(geo, f.v.disk, p);
      WriteKeepsVolOk(geo, r.v, p, WithWordAt(r.v.disk[p], Last(n), r.block));
      WriteKeepsBits(geo, r.v.disk, p, WithWordAt(r.v.disk[p], Last(n), r.block));
    }
  }

  /** After growing at n, n holds the new block, and every other place holds what it did. */
  lemma {:induction false} GrowAt(geo: Geometry, own: nat, f: File, n: Node, m: Node)
    requires FileOk(geo, f) && own < |geo.bitmap| && CanGrow(geo, f, n) && IsNode(geo, m)
    ensures Sane(geo, Grow(geo, own, f, n))
    ensures At(geo, Grow(geo, own, f, n), m) == if m == n then Alloc(geo, f.v, own).block else At(geo, f, m)
    decreases |m.path|
  {
    GrowWrites(geo, own, f, n);
    if m.path != [] {
      var q := Parent(m);
      GrowAt(geo, own, f, n, q);
      var b := Alloc(geo, f.v, own).block;
      if q == n {
        ZeroWord(geo.blockSize, Last(m));
      } else if At(geo, f, q) != 0 {
        StepDown(geo, own, f, n, m);
      }
    }
  }

  lemma SameNode(m: Node, n: Node)
    requires m.path != [] && n.path != [] && Parent(m) == Parent(n)
    ensures m == n <==> Last(m) == Last(n)
  {
    assert m.path == Parent(m).path + [Last(m)] && n.path == Parent(n).path + [Last(n)];
  }

  /** One step down from a block that was there before. */
  lemma StepDown(geo: Geometry, own: nat, f: File, n: Node, m: Node)
    requires FileOk(geo, f) && own < |geo.bitmap| && CanGrow(geo, f, n) && IsNode(geo, m)
    requires m.path != [] && At(geo, f, Parent(m)) != 0
    ensures Sane(geo, Grow(geo, own, f, n)) && At(geo, f, Parent(m)) < |f.v.disk|
    ensures Word(geo, Grow(geo, own, f, n).v.disk, At(geo, f, Parent(m)), Last(m)) ==
      if m == n then Alloc(geo, f.v, own).block else At(geo, f, m)
  {
    GrowWrites(geo, own, f, n);
    var r := Alloc(geo, f.v, own);
    var x := At(geo, f, Parent(m));
    assert InUse(geo, f.v.disk, x);
    if n.path != [] && x == At(geo, f, Parent(n)) {
      assert Parent(m) == Parent(n);
      WithWordAtWord(f.v.disk[x], Last(n), r.block, Last(m));
      SameNode(m, n);
    }
  }

  /** The tree stays a tree: the new block is allocated and was at no other place. */
  lemma GrowKeepsFileOk(geo: Geometry, own: nat, f: File, n: Node)
    requires FileOk(geo, f) && own < |geo.bitmap| && CanGrow(geo, f, n)
    ensures FileOk(geo, Grow(geo, own, f, n))
    ensures forall b: nat | InUse(geo, f.v.disk, b) :: InUse(geo, Grow(geo, own, f, n).v.disk, b)
  {
    var f', r := Grow(geo, own, f, n), Alloc(geo, f.v, own);
    GrowWrites(geo, own, f, n);
    AllocKeepsUse(geo, f.v, own);
    forall m | IsNode(geo, m)
      ensures At(geo, f', m) == if m == n then r.block else At(geo, f, m)
    {
      GrowAt(geo, own, f, n, m);
    }
  }

  // ---------------------------------------------------------------------------------
  // Growing any number of times
  // ---------------------------------------------------------------------------------

  ghost predicate IsPointer(geo: Geometry, f: File, b: nat)
    requires Sane(geo, f)
  {
    exists m | IsNode(geo, m) && !IsData(m) :: At(geo, f, m) == b
  }

  /** f' is f with blocks added at places above or at n that were empty. */
  ghost predicate Grown(geo: Geometry, f: File, f': File, n: Node) {
    && FileOk(geo, f) && FileOk(geo, f')
    && (forall m | IsNode(geo, m) :: Added(geo, f, f', n, m))
    && (forall b: nat | InUse(geo, f.v.disk, b) :: InUse(geo, f'.v.disk, b))
    && (forall b: nat | InUse(geo, f.v.disk, b) && !IsPointer(geo, f, b) :: f'.v.disk[b] == f.v.disk[b])
  }

  /** A place keeps its block; or it was empty, is above or at n, and has a block that was not
      in use, all zero if it is for data. */
  ghost predicate Added(geo: Geometry, f: File, f': File, n: Node, m: Node)
    requires FileOk(geo, f) && FileOk(geo, f') && IsNode(geo, m)
  {
    At(geo, f', m) == At(geo, f, m) ||
    (At(geo, f, m) == 0 && Above(m, n) && !InUse(geo, f.v.disk, At(geo, f', m)) &&
     (IsData(m) ==> Fresh(geo, f', m)))
  }

  predicate Fresh(geo: Geometry, f: File, m: Node)
    requires Sane(geo, f) && IsNode(geo, m)
  {
    At(geo, f, m) < |f.v.disk| && f.v.disk[At(geo, f, m)] == Zeros(geo.blockSize)
  }

  lemma GrowIsGrown(geo: Geometry, own: nat, f: File, n: Node)
    requires FileOk(geo, f) && own < |geo.bitmap| && CanGrow(geo, f, n)
    ensures Grown(geo, f, Grow(geo, own, f, n), n)
  {
    var f', r := Grow(geo, own, f, n), Alloc(geo, f.v, own);
    GrowKeepsFileOk(geo, own, f, n);
    GrowWrites(geo, own, f, n);
    forall m | IsNode(geo, m)
      ensures Added(geo, f, f', n, m)
    {
      GrowAt(geo, own, f, n, m);
    }
    forall b: nat | InUse(geo, f.v.disk, b) && !IsPointer(geo, f, b)
      ensures f'.v.disk[b] == f.v.disk[b]
    {
      if n.path != [] {
        assert IsNode(geo, Parent(n)) && !IsData(Parent(n));
      }
    }
  }

  lemma GrownNothing(geo: Geometry, f: File, n: Node)
    requires FileOk(geo, f)
    ensures Grown(geo, f, f, n)
  {
  }

  lemma GrownTwice(geo: Geometry, f: File, f1: File, f2: File, n1: Node, n2: Node)
    requires Grown(geo, f, f1, n1) && Grown(geo, f1, f2, n2) && Above(n1, n2)
    ensures Grown(geo, f, f2, n2)
  {
    forall b: nat | InUse(geo, f.v.disk, b) && !IsPointer(geo, f, b)
      ensures f2.v.disk[b] == f.v.disk[b]
    {
      StaysNoPointer(geo, f, f1, n1, b);
    }
    forall m | IsNode(geo, m)
      ensures Added(geo, f, f2, n2, m)
    {
      AddedTwice(geo, f, f1, f2, n1, n2, m);
    }
  }

  lemma StaysNoPointer(geo: Geometry, f: File, f': File, n: Node, b: nat)
    requires Grown(geo, f, f', n) && InUse(geo, f.v.disk, b) && !IsPointer(geo, f, b)
    ensures !IsPointer(geo, f', b)
  {
    forall m | IsNode(geo, m) && !IsData(m)
      ensures At(geo, f', m) != b
    {
      assert Added(geo, f, f', n, m);
    }
  }

  lemma AddedTwice(geo: Geometry, f: File, f1: File, f2: File, n1: Node, n2: Node, m: Node)
    requires Grown(geo, f, f1, n1) && Grown(geo, f1, f2, n2) && Above(n1, n2) && IsNode(geo, m)
    ensures Added(geo, f, f2, n2, m)
  {
    assert Added(geo, f, f1, n1, m) && Added(geo, f1, f2, n2, m);
    if At(geo, f1, m) != At(geo, f, m) && At(geo, f1, m) != 0 {
      AboveTwice(m, n1, n2);
      if IsData(m) {
        DataIsNoPointer(geo, f1, m);
      }
    }
  }

  lemma AboveTwice(m: Node, n1: Node, n2: Node)
    requires Above(m, n1) && Above(n1, n2)
    ensures Above(m, n2)
  {
  }

  lemma DataIsNoPointer(geo: Geometry, f: File, m: Node)
    requires FileOk(geo, f) && IsNode(geo, m) && IsData(m) && At(geo, f, m) != 0
    ensures !IsPointer(geo, f, At(geo, f, m))
  {
  }

  // ---------------------------------------------------------------------------------
  // Creating a block and what lies above it
  // ---------------------------------------------------------------------------------

  /** Grows the tree from the top down to n, as far as there are free blocks. */
  function Create(geo: Geometry, own: nat, f: File, n: Node): (f': File)
    requires FileOk(geo, f) && own < |geo.bitmap| && IsNode(geo, n)
    ensures Grown(geo, f, f', n)
    ensures At(geo, f', n) == 0 ==> f'.v.total == 0
    decreases |n.path|
  {
    if n.path == [] then
      GrownNothing(geo, f, n);
      if At(geo, f, n) == 0 then GrowOnce(geo, own, f, n) else f
    else
      var g := Create(geo, own, f, Parent(n));
      GrownNothing(geo, g, n);
      GrownTwice(geo, f, g, g, Parent(n), n);
      if At(geo, g, Parent(n)) == 0 || At(geo, g, n) != 0 then g
      else
        var f' := GrowOnce(geo, own, g, n);
        GrownTwice(geo, f, g, f', Parent(n), n);
        f'
  }

  function GrowOnce(geo: Geometry, own: nat, f: File, n: Node): (f': File)
    requires FileOk(geo, f) && own < |geo.bitmap| && CanGrow(geo, f, n)
    ensures Grown(geo, f, f', n)
    ensures At(geo, f', n) == 0 ==> f'.v.total == 0
  {
    GrowIsGrown(geo, own, f, n);
    GrowAt(geo, own, f, n, n);
    GrowWrites(geo, own, f, n);
    Grow(geo, own, f, n)
  }

  // ---------------------------------------------------------------------------------
  // What a reader of the file sees
  // ---------------------------------------------------------------------------------

  /** The bytes at a place for data; a missing block reads as zeros. */
  function Content(geo: Geometry, f: File, m: Node): Block
    requires FileOk(geo, f) && IsNode(geo, m)
  {
    if At(geo, f, m) == 0 then Zeros(geo.blockSize)
    else
      assert InUse(geo, f.v.disk, At(geo, f, m));
      f.v.disk[At(geo, f, m)]
  }

  /** Adding blocks to a file changes nothing that it holds. */
  lemma GrownIsInvisible(geo: Geometry, f: File, f': File, n: Node, m: Node)
    requires Grown(geo, f, f', n) && IsNode(geo, m) && IsData(m)
    ensures Content(geo, f', m) == Content(geo, f, m)
  {
    assert Added(geo, f, f', n, m);
    if At(geo, f, m) != 0 {
      DataIsNoPointer(geo, f, m);
    }
  }

  /** The file with new bytes in one of its data blocks. */
  function Written(geo: Geometry, f: File, m: Node, content: Block): File
    requires FileOk(geo, f) && IsNode(geo, m) && IsData(m) && At(geo, f, m) != 0
  {
    assert InUse(geo, f.v.disk, At(geo, f, m));
    f.(v := f.v.(disk := f.v.disk[At(geo, f, m) := content]))
  }

  /** Writing a data block moves no block and shows at that place only. */
  lemma WrittenEffect(geo: Geometry, f: File, m: Node, content: Block, n: Node)
    requires FileOk(geo, f) && IsNode(geo, m) && IsData(m) && At(geo, f, m) != 0 && |content| == geo.blockSize
    requires IsNode(geo, n)
    ensures var f' := Written(geo, f, m, content);
      && FileOk(geo, f') && At(geo, f', n) == At(geo, f, n)
      && Content(geo, f', n) == if n == m then content else Content(geo, f, n)
  {
    var f' := Written(geo, f, m, content);
    assert InUse(geo, f.v.disk, At(geo, f, m));
    WriteKeepsVolOk(geo, f.v, At(geo, f, m), content);
    WriteKeepsBits(geo, f.v.disk, At(geo, f, m), content);
    DataIsNoPointer(geo, f, m);
    forall k | IsNode(geo, k)
      ensures At(geo, f', k) == At(geo, f, k)
    {
      SamePointers(geo, f, f', k);
    }
  }

  /** Places follow from the pointer blocks alone. */
  lemma {:induction false} SamePointers(geo: Geometry, f: File, f': File, n: Node)
    requires FileOk(geo, f) && Sane(geo, f') && f'.ptrs == f.ptrs && IsNode(geo, n)
    requires forall m | IsNode(geo, m) && !IsData(m) && At(geo, f, m) != 0 ::
               f'.v.disk[At(geo, f, m)] == f.v.disk[At(geo, f, m)]
    ensures At(geo, f', n) == At(geo, f, n)
    decreases |n.path|
  {
    if n.path != [] {
      SamePointers(geo, f, f', Parent(n));
    }
  }

  // ---------------------------------------------------------------------------------
  // Other files of the volume
  // ---------------------------------------------------------------------------------

  ghost predicate Apart(geo: Geometry, f: File, g: File)
    requires Sane(geo, f) && Sane(geo, g)
  {
    f.v == g.v &&
    forall m, n | IsNode(geo, m) && IsNode(geo, n) && At(geo, f, m) != 0 :: At(geo, f, m) != At(geo, g, n)
  }

  /** Growing one file leaves every other file of the volume as it was, and apart. */
  lemma OthersKeptByGrowing(geo: Geometry, f: File, f': File, n: Node, g: File)
    requires Grown(geo, f, f', n) && FileOk(geo, g) && Apart(geo, f, g)
    ensures var g' := g.(v := f'.v);
      && FileOk(geo, g') && Apart(geo, f', g')
      && forall m | IsNode(geo, m) :: At(geo, g', m) == At(geo, g, m) && Content(geo, g', m) == Content(geo, g, m)
  {
    var g' := g.(v := f'.v);
    forall m | IsNode(geo, m) && At(geo, g, m) != 0
      ensures f'.v.disk[At(geo, g, m)] == g.v.disk[At(geo, g, m)]
    {
      assert InUse(geo, f.v.disk, At(geo, g, m)) && !IsPointer(geo, f, At(geo, g, m));
    }
    forall m | IsNode(geo, m)
      ensures At(geo, g', m) == At(geo, g, m)
    {
      SamePointers(geo, g, g', m);
    }
    forall m, k | IsNode(geo, m) && IsNode(geo, k) && At(geo, f', m) != 0
      ensures At(geo, f', m) != At(geo, g', k)
    {
      assert Added(geo, f, f', n, m);
    }
  }

  /** So does writing to it. */
  lemma OthersKeptByWriting(geo: Geometry, f: File, m: Node, content: Block, g: File)
    requires FileOk(geo, f) && IsNode(geo, m) && IsData(m) && At(geo, f, m) != 0 && |content| == geo.blockSize
    requires FileOk(geo, g) && Apart(geo, f, g)
    ensures var f' := Written(geo, f, m, content); var g' := g.(v := f'.v);
      && FileOk(geo, f') && FileOk(geo, g') && Apart(geo, f', g')
      && forall n | IsNode(geo, n) :: At(geo, g', n) == At(geo, g, n) && Content(geo, g', n) == Content(geo, g, n)
  {
    var f' := Written(geo, f, m, content);
    var g' := g.(v := f'.v);
    WrittenEffect(geo, f, m, content, m);
    WriteKeepsBits(geo, f.v.disk, At(geo, f, m), content);
    forall n | IsNode(geo, n)
      ensures At(geo, g', n) == At(geo, g, n)
      ensures At(geo, f', n) == At(geo, f, n)
    {
      SamePointers(geo, g, g', n);
      WrittenEffect(geo, f, m, content, n);
    }
  }

  // ---------------------------------------------------------------------------------
  // A volume and a file that satisfy the invariants
  // ---------------------------------------------------------------------------------

  /** A volume of a hundred blocks of 1024 bytes, in one group whose bitmap is block 3. */
  function SmallGeometry(): Geometry {
    Geometry(1024, 8192, 1, [3], 100)
  }

  /** Block 5 is free: it is bit 4. */
  function SmallDisk(): seq<Block> {
    seq(100, b => seq(1024, i => if b != 3 then 0 else if i == 0 then 239 else 255))
  }

  function EmptyFile(): File {
    File(Vol(SmallDisk(), [1], 1), seq(15, _ => 0), 0)
  }

  lemma FileOkIsPossible()
    ensures FileOk(SmallGeometry(), EmptyFile())
  {
    var geo, disk := SmallGeometry(), SmallDisk();
    assert geo.bitmap[0] == 3;
    forall off | 0 <= off < 8192
      ensures Bit(geo, disk, 0, off) <==> off != 4
    {
      AllOnes(off % 8);
      OnesButFive(off % 8);
      assert disk[3][off / 8] == if off / 8 == 0 then 239 else 255;
    }
    assert Clear(geo, disk, 0) == {4};
    assert Sum([1]) == 1 by { assert [1][1..] == []; }
    var f := EmptyFile();
    forall n | IsNode(geo, n)
      ensures At(geo, f, n) == 0
    {
      NothingThere(geo, f, n);
    }
  }

  lemma OnesButFive(k: nat)
    requires k < 8
    ensures BitOf(239, k) <==> k != 4
  {
    assert BitOf(239, k) == if k == 0 then true else BitOf(119, k - 1);
    assert k > 1 ==> BitOf(119, k - 1) == BitOf(59, k - 2);
    assert k > 2 ==> BitOf(59, k - 2) == BitOf(29, k - 3);
    assert k > 3 ==> BitOf(29, k - 3) == BitOf(14, k - 4);
    assert k > 4 ==> BitOf(14, k - 4) == BitOf(7, k - 5);
    assert k > 5 ==> BitOf(7, k - 5) == BitOf(3, k - 6);
    assert k > 6 ==> BitOf(3, k - 6) == BitOf(1, k - 7);
  }

  lemma {:induction false} NothingThere(geo: Geometry, f: File, n: Node)
    requires Sane(geo, f) && IsNode(geo, n) && forall k | 0 <= k < 15 :: f.ptrs[k] == 0
    ensures At(geo, f, n) == 0
    decreases |n.path|
  {
    if n.path != [] {
      NothingThere(geo, f, Parent(n));
    }
  }
}
