/** A file as block mapping builds it is a file that truncation can free: the two views of
    its pointer tree agree. */
module Ext2Reclaim {
  import opened Bytes
  import opened Ext2Layout
  import opened Ext2Free
  import opened Ext2Alloc
  import opened Ext2Volume
  import opened Ext2Truncate
  import opened Ext2Tree

  /** The i-th place below n. */
  function Child(n: Node, i: nat): Node {
    Node(n.slot, n.path + [i])
  }

  ghost function Within(n: Node): iset<Node> {
    iset m | Above(n, m)
  }

  ghost function WithinChildren(n: Node, k: nat): iset<Node> {
    iset m | Above(n, m) && |n.path| < |m.path| && m.path[|n.path|] < k
  }

  ghost predicate Holds(geo: Geometry, f: File, places: iset<Node>, b: nat)
    requires Sane(geo, f)
  {
    exists m | IsNode(geo, m) && m in places :: At(geo, f, m) == b
  }

  /** A list of blocks found at some of these places, none of them twice. */
  ghost predicate Visits(geo: Geometry, f: File, bs: seq<nat>, places: iset<Node>)
    requires Sane(geo, f)
  {
    Distinct(bs) && forall b | b in bs :: b != 0 && Holds(geo, f, places, b)
  }

  /** Lists of blocks at different places can be joined. */
  lemma JoinVisits(geo: Geometry, f: File, xs: seq<nat>, s: iset<Node>, ys: seq<nat>, t: iset<Node>)
    requires FileOk(geo, f) && Visits(geo, f, xs, s) && Visits(geo, f, ys, t) && s !! t
    ensures Visits(geo, f, xs + ys, s + t)
  {
    var zs := xs + ys;
    forall i, j | 0 <= i < j < |zs|
      ensures zs[i] != zs[j]
    {
      if i < |xs| <= j {
        assert xs[i] in xs && ys[j - |xs|] in ys;
        ElsewhereDiffers(geo, f, xs[i], s, ys[j - |xs|], t);
      }
    }
    forall b | b in zs
      ensures b != 0 && Holds(geo, f, s + t, b)
    {
      if b in xs {
        WiderHolds(geo, f, s, s + t, b);
      } else {
        WiderHolds(geo, f, t, s + t, b);
      }
    }
  }

  lemma ElsewhereDiffers(geo: Geometry, f: File, a: nat, s: iset<Node>, b: nat, t: iset<Node>)
    requires FileOk(geo, f) && a != 0 && Holds(geo, f, s, a) && Holds(geo, f, t, b) && s !! t
    ensures a != b
  {
    var m :| IsNode(geo, m) && m in s && At(geo, f, m) == a;
    var n :| IsNode(geo, n) && n in t && At(geo, f, n) == b;
    assert m != n;
  }

  lemma WiderHolds(geo: Geometry, f: File, s: iset<Node>, t: iset<Node>, b: nat)
    requires Sane(geo, f) && Holds(geo, f, s, b) && s <= t
    ensures Holds(geo, f, t, b)
  {
    var m :| IsNode(geo, m) && m in s && At(geo, f, m) == b;
    assert m in t;
  }

  lemma WiderVisits(geo: Geometry, f: File, bs: seq<nat>, s: iset<Node>, t: iset<Node>)
    requires FileOk(geo, f) && Visits(geo, f, bs, s) && s <= t
    ensures Visits(geo, f, bs, t)
  {
    forall b | b in bs
      ensures Holds(geo, f, t, b)
    {
      WiderHolds(geo, f, s, t, b);
    }
  }

  lemma VisitsOne(geo: Geometry, f: File, n: Node)
    requires FileOk(geo, f) && IsNode(geo, n) && At(geo, f, n) != 0
    ensures Visits(geo, f, [At(geo, f, n)], iset{n})
  {
    assert n in iset{n};
  }

  // ---------------------------------------------------------------------------------
  // Trees
  // ---------------------------------------------------------------------------------

  lemma ChildAt(geo: Geometry, f: File, n: Node, i: nat)
    requires FileOk(geo, f) && IsNode(geo, n) && !IsData(n) && At(geo, f, n) != 0 && i < WordsPerBlock(geo)
    ensures IsNode(geo, Child(n, i)) && At(geo, f, n) < |f.v.disk|
    ensures Child(n, i).slot == n.slot && |Child(n, i).path| == |n.path| + 1
    ensures At(geo, f, Child(n, i)) == Word(geo, f.v.disk, At(geo, f, n), i)
  {
    assert Parent(Child(n, i)) == n;
    assert InUse(geo, f.v.disk, At(geo, f, n));
  }

  lemma WithinChild(n: Node, k: nat)
    ensures WithinChildren(n, k + 1) == WithinChildren(n, k) + Within(Child(n, k))
    ensures WithinChildren(n, k) !! Within(Child(n, k))
  {
    forall m
      ensures m in Within(Child(n, k)) <==> Above(n, m) && |n.path| < |m.path| && m.path[|n.path|] == k
    {
      ChildAbove(n, m, k);
    }
  }

  lemma ChildAbove(n: Node, m: Node, i: nat)
    ensures Above(Child(n, i), m) <==> Above(n, m) && |n.path| < |m.path| && m.path[|n.path|] == i
  {
    if Above(n, m) && |n.path| < |m.path| && m.path[|n.path|] == i {
      assert m.path[..|n.path| + 1] == n.path + [i];
    }
    if Above(Child(n, i), m) {
      assert m.path[|n.path|] == (n.path + [i])[|n.path|];
    }
  }

  lemma {:induction false} TreeIsOk(geo: Geometry, f: File, n: Node, level: nat)
    requires FileOk(geo, f) && IsNode(geo, n) && |n.path| + level == Level(n.slot)
    ensures TreeOk(geo, f.v.disk, At(geo, f, n), level)
    decreases level
  {
    if At(geo, f, n) != 0 && level > 0 {
      assert InUse(geo, f.v.disk, At(geo, f, n));
      forall i | 0 <= i < WordsPerBlock(geo)
        ensures TreeOk(geo, f.v.disk, Word(geo, f.v.disk, At(geo, f, n), i), level - 1)
      {
        ChildAt(geo, f, n, i);
        TreeIsOk(geo, f, Child(n, i), level - 1);
      }
    }
  }

  /** Freeing the tree at n visits blocks within n, none of them twice. */
  lemma {:induction false} TreeVisits(geo: Geometry, f: File, n: Node, level: nat)
    requires FileOk(geo, f) && IsNode(geo, n) && |n.path| + level == Level(n.slot)
    requires TreeOk(geo, f.v.disk, At(geo, f, n), level)
    ensures Visits(geo, f, TreeBlocks(geo, f.v.disk, At(geo, f, n), level), Within(n))
    decreases level, WordsPerBlock(geo) + 1
  {
    assert Sane(geo, f);
    hide FileOk, Visits;
    if At(geo, f, n) == 0 {
      VisitsNone(geo, f, Within(n));
    } else {
      VisitsOne(geo, f, n);
      if level == 0 {
        WiderVisits(geo, f, [At(geo, f, n)], iset{n}, Within(n));
      } else {
        var w := WordsPerBlock(geo);
        ChildrenVisit(geo, f, n, level - 1, w);
        var bs := ChildBlocks(geo, f.v.disk, At(geo, f, n), level - 1, w);
        JoinVisits(geo, f, bs, WithinChildren(n, w), [At(geo, f, n)], iset{n});
        WiderVisits(geo, f, bs + [At(geo, f, n)], WithinChildren(n, w) + iset{n}, Within(n));
      }
    }
  }

  lemma VisitsNone(geo: Geometry, f: File, places: iset<Node>)
    requires Sane(geo, f)
    ensures Visits(geo, f, [], places)
  {
  }

  lemma NextChildVisits(geo: Geometry, f: File, n: Node, k: nat, xs: seq<nat>, ys: seq<nat>)
    requires FileOk(geo, f) && Visits(geo, f, xs, WithinChildren(n, k)) && Visits(geo, f, ys, Within(Child(n, k)))
    ensures Visits(geo, f, xs + ys, WithinChildren(n, k + 1))
  {
    WithinChild(n, k);
    JoinVisits(geo, f, xs, WithinChildren(n, k), ys, Within(Child(n, k)));
  }

  lemma ChildBlocksStep(geo: Geometry, disk: seq<Block>, root: nat, level: nat, k: nat)
    requires GeometryOk(geo) && Sized(geo, disk) && root != 0 && TreeOk(geo, disk, root, level + 1)
    requires k < WordsPerBlock(geo)
    ensures ChildBlocks(geo, disk, root, level, 0) == []
    ensures ChildBlocks(geo, disk, root, level, k + 1) ==
      ChildBlocks(geo, disk, root, level, k) + TreeBlocks(geo, disk, Word(geo, disk, root, k), level)
  {
  }

  lemma {:induction false} ChildrenVisit(geo: Geometry, f: File, n: Node, level: nat, k: nat)
    requires FileOk(geo, f) && IsNode(geo, n) && |n.path| + level + 1 == Level(n.slot)
    requires At(geo, f, n) != 0 && TreeOk(geo, f.v.disk, At(geo, f, n), level + 1) && k <= WordsPerBlock(geo)
    ensures Visits(geo, f, ChildBlocks(geo, f.v.disk, At(geo, f, n), level, k), WithinChildren(n, k))
    decreases level + 1, k
  {
    assert Sane(geo, f);
    hide FileOk, IsNode, Visits, WithinChildren, Within, TreeOk, At, ChildBlocks, TreeBlocks, Child;
    ChildBlocksStep(geo, f.v.disk, At(geo, f, n), level, if k == 0 then 0 else k - 1);
    if k == 0 {
      VisitsNone(geo, f, WithinChildren(n, k));
    } else {
      var root := At(geo, f, n);
      ChildrenVisit(geo, f, n, level, k - 1);
      ChildAt(geo, f, n, k - 1);
      TreeIsOk(geo, f, Child(n, k - 1), level);
      TreeVisits(geo, f, Child(n, k - 1), level);
      NextChildVisits(geo, f, n, k - 1, ChildBlocks(geo, f.v.disk, root, level, k - 1),
                      TreeBlocks(geo, f.v.disk, Word(geo, f.v.disk, root, k - 1), level));
    }
  }

  // ---------------------------------------------------------------------------------
  // Whole files
  // ---------------------------------------------------------------------------------

  ghost function InSlots(k: nat): iset<Node> {
    iset m: Node | m.slot < k
  }

  lemma NextSlotPlaces(k: nat)
    ensures InSlots(k) !! Within(Node(k, [])) && InSlots(k) + Within(Node(k, [])) <= InSlots(k + 1)
  {
  }

  lemma TreesAreOk(geo: Geometry, f: File)
    requires FileOk(geo, f) && f.ptrs[INDIRECT_BLOCK] == 0
    ensures FileTreesOk(geo, f.v.disk, f.ptrs)
  {
    forall k | 0 <= k < 15
      ensures f.ptrs[k] < 0x1_0000_0000 && TreeOk(geo, f.v.disk, f.ptrs[k], Level(k))
    {
      if k != INDIRECT_BLOCK {
        var n := Node(k, []);
        assert At(geo, f, n) == f.ptrs[k];
        assert f.ptrs[k] == 0 || InUse(geo, f.v.disk, f.ptrs[k]);
        TreeIsOk(geo, f, n, Level(k));
      }
    }
  }

  lemma {:induction false} SlotsVisit(geo: Geometry, f: File, k: nat)
    requires FileOk(geo, f) && f.ptrs[INDIRECT_BLOCK] == 0 && FileTreesOk(geo, f.v.disk, f.ptrs) && k <= 15
    ensures Visits(geo, f, SlotBlocks(geo, f.v.disk, f.ptrs, k), InSlots(k))
  {
    assert Sane(geo, f);
    hide FileOk, Visits;
    if k == 0 {
      VisitsNone(geo, f, InSlots(k));
    } else {
      SlotsVisit(geo, f, k - 1);
      SlotVisits(geo, f, k - 1);
      NextSlotPlaces(k - 1);
      var xs, ys := SlotBlocks(geo, f.v.disk, f.ptrs, k - 1), TreeBlocks(geo, f.v.disk, f.ptrs[k - 1], Level(k - 1));
      JoinVisits(geo, f, xs, InSlots(k - 1), ys, Within(Node(k - 1, [])));
      WiderVisits(geo, f, xs + ys, InSlots(k - 1) + Within(Node(k - 1, [])), InSlots(k));
    }
  }

  lemma SlotVisits(geo: Geometry, f: File, k: nat)
    requires FileOk(geo, f) && f.ptrs[INDIRECT_BLOCK] == 0 && FileTreesOk(geo, f.v.disk, f.ptrs) && k < 15
    ensures Visits(geo, f, TreeBlocks(geo, f.v.disk, f.ptrs[k], Level(k)), Within(Node(k, [])))
  {
    var n := Node(k, []);
    if k == INDIRECT_BLOCK {
      VisitsNone(geo, f, Within(n));
    } else {
      assert At(geo, f, n) == f.ptrs[k];
      TreeVisits(geo, f, n, Level(k));
    }
  }

  // ---------------------------------------------------------------------------------
  // Nothing is left behind
  // ---------------------------------------------------------------------------------

  lemma {:induction false} NothingBelowNothing(geo: Geometry, f: File, n: Node, m: Node)
    requires FileOk(geo, f) && IsNode(geo, n) && IsNode(geo, m) && Above(n, m) && At(geo, f, m) != 0
    ensures At(geo, f, n) != 0
    decreases |m.path|
  {
    if m != n {
      assert n.path == m.path[..|n.path|];
      assert Above(n, Parent(m));
      NothingBelowNothing(geo, f, n, Parent(m));
    }
  }

  lemma {:induction false} TreeVisitsAll(geo: Geometry, f: File, n: Node, level: nat, m: Node)
    requires FileOk(geo, f) && IsNode(geo, n) && |n.path| + level == Level(n.slot)
    requires TreeOk(geo, f.v.disk, At(geo, f, n), level)
    requires IsNode(geo, m) && Above(n, m) && At(geo, f, m) != 0
    ensures At(geo, f, m) in TreeBlocks(geo, f.v.disk, At(geo, f, n), level)
    decreases level
  {
    NothingBelowNothing(geo, f, n, m);
    if m != n {
      assert |n.path| < |m.path| by { assert m.path[..|n.path|] == n.path; }
      var i := m.path[|n.path|];
      ChildAbove(n, m, i);
      ChildAt(geo, f, n, i);
      TreeVisitsAll(geo, f, Child(n, i), level - 1, m);
      ChildIsFreed(geo, f.v.disk, At(geo, f, n), level - 1, i, WordsPerBlock(geo), At(geo, f, m));
    }
  }

  lemma {:induction false} ChildIsFreed(geo: Geometry, disk: seq<Block>, root: nat, level: nat, i: nat, k: nat, b: nat)
    requires GeometryOk(geo) && Sized(geo, disk) && root != 0 && TreeOk(geo, disk, root, level + 1)
    requires i < k <= WordsPerBlock(geo) && b in TreeBlocks(geo, disk, Word(geo, disk, root, i), level)
    ensures b in ChildBlocks(geo, disk, root, level, k)
    decreases k
  {
    if i < k - 1 {
      ChildIsFreed(geo, disk, root, level, i, k - 1, b);
    }
  }

  lemma {:induction false} SlotsVisitAll(geo: Geometry, f: File, k: nat, m: Node)
    requires FileOk(geo, f) && f.ptrs[INDIRECT_BLOCK] == 0 && FileTreesOk(geo, f.v.disk, f.ptrs)
    requires IsNode(geo, m) && At(geo, f, m) != 0 && m.slot < k <= 15
    ensures At(geo, f, m) in SlotBlocks(geo, f.v.disk, f.ptrs, k)
    decreases k
  {
    if m.slot < k - 1 {
      SlotsVisitAll(geo, f, k - 1, m);
    } else {
      TreeVisitsAll(geo, f, Node(m.slot, []), Level(m.slot), m);
    }
  }

  ghost predicate AllFreeable(geo: Geometry, f: File)
    requires Sane(geo, f)
  {
    forall n | IsNode(geo, n) && At(geo, f, n) != 0 :: Freeable(geo, At(geo, f, n))
  }

  /** b is at some place of the file. */
  ghost predicate HasBlock(geo: Geometry, f: File, b: nat)
    requires Sane(geo, f)
  {
    b != 0 && exists m | IsNode(geo, m) :: At(geo, f, m) == b
  }

  /** Truncating a file that bmap_create built, without the indirect range, ends well if none
      of its blocks is one that ext2_bfree loses. It frees the blocks of the tree, all of them
      and each once. */
  lemma BuiltFilesTruncate(geo: Geometry, f: File)
    requires FileOk(geo, f) && f.ptrs[INDIRECT_BLOCK] == 0 && AllFreeable(geo, f)
    ensures FileTreesOk(geo, f.v.disk, f.ptrs)
    ensures var bs := FileBlocks(geo, f.v.disk, f.ptrs);
      && AllMarked(geo, f.v.disk, bs) && Distinct(bs)
      && (forall b | b in bs :: DataBlock(geo, b) && FreeSpot(geo, b) == SpotOf(geo, b))
      && (forall b: nat :: b in bs <==> HasBlock(geo, f, b))
  {
    TreesAreOk(geo, f);
    SlotsVisit(geo, f, 15);
    var bs := FileBlocks(geo, f.v.disk, f.ptrs);
    forall b | b in bs
      ensures Located(geo, b) && FreeSpot(geo, b) in Marked(geo, f.v.disk) && DataBlock(geo, b)
      ensures FreeSpot(geo, b) == SpotOf(geo, b) && HasBlock(geo, f, b)
    {
      var m :| IsNode(geo, m) && m in InSlots(15) && At(geo, f, m) == b;
      assert InUse(geo, f.v.disk, b);
      FreeableIsLocated(geo, b);
    }
    forall b: nat | HasBlock(geo, f, b)
      ensures b in bs
    {
      var m :| IsNode(geo, m) && At(geo, f, m) == b;
      SlotsVisitAll(geo, f, 15, m);
    }
  }

  // ---------------------------------------------------------------------------------
  // What truncation leaves
  // ---------------------------------------------------------------------------------

  /** The volume once all blocks of f are free. */
  function Truncated(geo: Geometry, f: File): (r: FreeResult)
    requires FileOk(geo, f) && f.ptrs[INDIRECT_BLOCK] == 0
    ensures FileTreesOk(geo, f.v.disk, f.ptrs)
  {
    TreesAreOk(geo, f);
    FreeSeq(geo, f.v, FileBlocks(geo, f.v.disk, f.ptrs))
  }

  lemma TruncatedVolume(geo: Geometry, f: File)
    requires FileOk(geo, f) && f.ptrs[INDIRECT_BLOCK] == 0 && AllFreeable(geo, f)
    ensures var r := Truncated(geo, f);
      && r.Freed? && VolOk(geo, r.v) && BitmapsOnly(geo, f.v.disk, r.v.disk)
      && forall b: nat :: InUse(geo, r.v.disk, b) <==> InUse(geo, f.v.disk, b) && !HasBlock(geo, f, b)
  {
    BuiltFilesTruncate(geo, f);
    var bs := FileBlocks(geo, f.v.disk, f.ptrs);
    assert Words32(bs);
    FreeSeqExact(geo, f.v, bs);
    FreeSeqKeepsVolOk(geo, f.v, bs);
    forall b | DataBlock(geo, b)
      ensures SpotOf(geo, b) in Spots(geo, bs) <==> HasBlock(geo, f, b)
    {
      if a :| a in bs && FreeSpot(geo, a) == SpotOf(geo, b) {
        SameSpot(geo, a, b);
      }
    }
  }

  /** A block that ext2_bfree cannot find is among those that truncation would free. */
  lemma LostBlock(geo: Geometry, f: File)
    requires FileOk(geo, f) && f.ptrs[INDIRECT_BLOCK] == 0 && FileTreesOk(geo, f.v.disk, f.ptrs) && !AllFreeable(geo, f)
    ensures exists b :: b in FileBlocks(geo, f.v.disk, f.ptrs) && !Located(geo, b)
  {
    var n :| IsNode(geo, n) && At(geo, f, n) != 0 && !Freeable(geo, At(geo, f, n));
    hide FileOk, At, FileTreesOk;
    SlotsVisitAll(geo, f, 15, n);
    StrayBlock(geo, At(geo, f, n));
    assert At(geo, f, n) in FileBlocks(geo, f.v.disk, f.ptrs);
  }

  /** Truncation ends well exactly if ext2_bfree can find every block of the file. */
  lemma TruncatesExactly(geo: Geometry, f: File)
    requires FileOk(geo, f) && f.ptrs[INDIRECT_BLOCK] == 0
    ensures Truncated(geo, f).Freed? <==> AllFreeable(geo, f)
  {
    if AllFreeable(geo, f) {
      TruncatedVolume(geo, f);
    } else {
      TreesAreOk(geo, f);
      var bs := FileBlocks(geo, f.v.disk, f.ptrs);
      assert Countable(geo, f.v);
      hide FileOk, AllFreeable, FileBlocks, FileTreesOk, FreeSeq;
      LostBlock(geo, f);
      SlotWords32(geo, f.v.disk, f.ptrs, 15);
      assert Words32(bs);
      FreeSeqExact(geo, f.v, bs);
    }
  }

  /** After ext2_itrunc the inode is an empty file of a volume that is in order... */
  lemma TruncatedIsEmpty(geo: Geometry, f: File)
    requires FileOk(geo, f) && f.ptrs[INDIRECT_BLOCK] == 0 && AllFreeable(geo, f)
    ensures Truncated(geo, f).Freed?
    ensures var f' := File(Truncated(geo, f).v, seq(15, _ => 0), 0);
      FileOk(geo, f') && forall n | IsNode(geo, n) :: At(geo, f', n) == 0
  {
    TruncatedVolume(geo, f);
    var f' := File(Truncated(geo, f).v, seq(15, _ => 0), 0);
    forall n | IsNode(geo, n)
      ensures At(geo, f', n) == 0
    {
      NothingThere(geo, f', n);
    }
  }

  /** ...and every other file has its blocks, still allocated, and its contents. */
  lemma OthersKeptByTruncating(geo: Geometry, f: File, g: File)
    requires FileOk(geo, f) && f.ptrs[INDIRECT_BLOCK] == 0 && AllFreeable(geo, f)
    requires FileOk(geo, g) && Apart(geo, f, g)
    ensures Truncated(geo, f).Freed?
    ensures var g' := g.(v := Truncated(geo, f).v);
      && FileOk(geo, g')
      && forall n | IsNode(geo, n) :: At(geo, g', n) == At(geo, g, n) && Content(geo, g', n) == Content(geo, g, n)
  {
    TruncatedVolume(geo, f);
    var g' := g.(v := Truncated(geo, f).v);
    forall n | IsNode(geo, n) && At(geo, g, n) != 0
      ensures g'.v.disk[At(geo, g, n)] == g.v.disk[At(geo, g, n)] && InUse(geo, g'.v.disk, At(geo, g, n))
    {
      assert InUse(geo, g.v.disk, At(geo, g, n)) && !HasBlock(geo, f, At(geo, g, n));
    }
    forall n | IsNode(geo, n)
      ensures At(geo, g', n) == At(geo, g, n)
    {
      SamePointers(geo, g, g', n);
    }
  }
}
