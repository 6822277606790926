/** Where inodes lie on the device, and reading and writing them (sys/fs/ext2/inode.c,
    sys/include/fs/ext2.h). */
module Ext2Inode {
  import opened Bytes

  /** sizeof(struct ext2_inode) */
  const INODE_BYTES: nat := 128

  /** EXT2_INODE_SIZE, EXT2_INODES_PER_GROUP and bg_inode_table of every group. */
  datatype Tables = Tables(blockSize: nat, inodeSize: nat, inodesPerGroup: nat, table: seq<nat>)

  function PerBlock(t: Tables): nat
    requires t.inodeSize > 0
  {
    t.blockSize / t.inodeSize
  }

  /** Blocks that the table of one group takes. */
  function TableBlocks(t: Tables): nat
    requires t.inodeSize > 0 && PerBlock(t) > 0 && t.inodesPerGroup > 0
  {
    Quotient(t.inodesPerGroup - 1, PerBlock(t)) + 1
  }

  /** The inode size divides the block size, and no two groups' tables overlap. */
  predicate TablesOk(t: Tables) {
    && INODE_BYTES <= t.inodeSize <= t.blockSize
    && PerBlock(t) > 0 && t.blockSize == Times(PerBlock(t), t.inodeSize)
    && t.inodesPerGroup > 0
    && forall g, h | 0 <= g < h < |t.table| ::
         t.table[g] + TableBlocks(t) <= t.table[h] || t.table[h] + TableBlocks(t) <= t.table[g]
  }

  /** EXT2_BLOCK_GROUP */
  function Group(t: Tables, num: nat): nat
    requires t.inodesPerGroup > 0 && num > 0
  {
    Quotient(num - 1, t.inodesPerGroup)
  }

  /** EXT2_INODE_INDEX */
  function Index(t: Tables, num: nat): (i: nat)
    requires t.inodesPerGroup > 0 && num > 0
    ensures i < t.inodesPerGroup
  {
    Remainder(num - 1, t.inodesPerGroup)
  }

  predicate HasInode(t: Tables, num: nat) {
    t.inodesPerGroup > 0 && num > 0 && Group(t, num) < |t.table|
  }

  /** EXT2_INODE_BLOCK plus the start of the table. */
  function InodeBlock(t: Tables, num: nat): nat
    requires TablesOk(t) && HasInode(t, num)
  {
    Quotient(Times(Index(t, num), t.inodeSize), t.blockSize) + t.table[Group(t, num)]
  }

  function InodeOffset(t: Tables, num: nat): nat
    requires TablesOk(t) && HasInode(t, num)
  {
    Times(Remainder(Index(t, num), PerBlock(t)), t.inodeSize)
  }

  // ---------------------------------------------------------------------------------
  // Slots are disjoint
  // ---------------------------------------------------------------------------------

  lemma {:induction false} QuotientOfTimes(i: nat, k: nat, w: nat)
    requires k > 0 && w > 0 && Times(k, w) > 0
    ensures Quotient(Times(i, w), Times(k, w)) == Quotient(i, k)
  {
    if i < k {
      TimesGrows(i, k, w);
    } else {
      TimesAdds(i - k, k, w);
      QuotientOfTimes(i - k, k, w);
    }
  }

  lemma {:induction false} QuotientMonotone(a: nat, b: nat, w: nat)
    requires w > 0 && a <= b
    ensures Quotient(a, w) <= Quotient(b, w)
  {
    if a >= w {
      QuotientMonotone(a - w, b - w, w);
    }
  }

  /** Each inode lies in one block, inside the table of its group. */
  lemma SlotInTable(t: Tables, num: nat)
    requires TablesOk(t) && HasInode(t, num)
    ensures InodeBlock(t, num) == t.table[Group(t, num)] + Quotient(Index(t, num), PerBlock(t))
    ensures Quotient(Index(t, num), PerBlock(t)) < TableBlocks(t)
    ensures InodeOffset(t, num) + t.inodeSize <= t.blockSize
  {
    QuotientOfTimes(Index(t, num), PerBlock(t), t.inodeSize);
    QuotientMonotone(Index(t, num), t.inodesPerGroup - 1, PerBlock(t));
    TimesGrows(Remainder(Index(t, num), PerBlock(t)), PerBlock(t), t.inodeSize);
  }

  /** Inode 1 + g * inodesPerGroup + i is the i-th of group g: it starts at byte i * inodeSize
      of the group's table. */
  lemma SlotPlace(t: Tables, g: nat, i: nat)
    requires TablesOk(t) && g < |t.table| && i < t.inodesPerGroup
    ensures var num := 1 + g * t.inodesPerGroup + i;
      && HasInode(t, num) && Group(t, num) == g && Index(t, num) == i
      && InodeBlock(t, num) * t.blockSize + InodeOffset(t, num) == t.table[g] * t.blockSize + i * t.inodeSize
  {
    var num := 1 + g * t.inodesPerGroup + i;
    var n, k := t.inodesPerGroup, PerBlock(t);
    DivisionIsUnique(num - 1, n, g, i);
    DivisionIs(num - 1, n);
    SlotInTable(t, num);
    var q, r := Quotient(i, k), Remainder(i, k);
    Division(i, k);
    TimesIs(q, k);
    TimesIs(k, t.inodeSize);
    TimesIs(r, t.inodeSize);
    PlaceInTable(t.table[g], q, r, k, t.inodeSize);
  }

  lemma PlaceInTable(start: nat, q: nat, r: nat, k: nat, w: nat)
    ensures (start + q) * (k * w) + r * w == start * (k * w) + (q * k + r) * w
  {
    assert (q * k + r) * w == q * k * w + r * w;
    assert q * (k * w) == q * k * w;
  }

  /** Two inodes never share a byte. */
  lemma SlotsDisjoint(t: Tables, a: nat, b: nat)
    requires TablesOk(t) && HasInode(t, a) && HasInode(t, b) && a != b
    ensures InodeBlock(t, a) != InodeBlock(t, b)
         || InodeOffset(t, a) + t.inodeSize <= InodeOffset(t, b)
         || InodeOffset(t, b) + t.inodeSize <= InodeOffset(t, a)
  {
    SlotInTable(t, a);
    SlotInTable(t, b);
    Division(a - 1, t.inodesPerGroup);
    Division(b - 1, t.inodesPerGroup);
    if Group(t, a) == Group(t, b) {
      var i, j, k := Index(t, a), Index(t, b), PerBlock(t);
      Division(i, k);
      Division(j, k);
      if Remainder(i, k) < Remainder(j, k) {
        TimesGrows(Remainder(i, k), Remainder(j, k), t.inodeSize);
      } else if Remainder(j, k) < Remainder(i, k) {
        TimesGrows(Remainder(j, k), Remainder(i, k), t.inodeSize);
      }
    }
  }

  // ---------------------------------------------------------------------------------
  // Reading and writing
  // ---------------------------------------------------------------------------------

  ghost predicate Holds(t: Tables, disk: seq<Block>) {
    && TablesOk(t)
    && (forall b | 0 <= b < |disk| :: |disk[b]| == t.blockSize)
    && (forall num: nat | HasInode(t, num) :: InodeBlock(t, num) < |disk|)
  }

  /** The bytes of one inode on the device. */
  ghost function Stored(t: Tables, disk: seq<Block>, num: nat): seq<Byte>
    requires Holds(t, disk) && HasInode(t, num)
  {
    SlotInTable(t, num);
    disk[InodeBlock(t, num)][InodeOffset(t, num)..InodeOffset(t, num) + INODE_BYTES]
  }

  /** Inode `num` is replaced, all other inodes and all bytes outside its slot stay. */
  ghost predicate OneStored(t: Tables, disk: seq<Block>, disk': seq<Block>, num: nat, ino: seq<Byte>) {
    && Holds(t, disk) && Holds(t, disk') && HasInode(t, num)
    && (forall m: nat | HasInode(t, m) :: Stored(t, disk', m) == if m == num then ino else Stored(t, disk, m))
    && |disk'| == |disk|
    && (forall b, i | 0 <= b < |disk| && 0 <= i < t.blockSize ::
          (b == InodeBlock(t, num) && InodeOffset(t, num) <= i < InodeOffset(t, num) + INODE_BYTES) || disk'[b][i] == disk[b][i])
  }

  lemma ReplaceStores(t: Tables, disk: seq<Block>, num: nat, ino: seq<Byte>)
    requires Holds(t, disk) && HasInode(t, num) && |ino| == INODE_BYTES
    ensures InodeOffset(t, num) + |ino| <= t.blockSize
    ensures var b := InodeBlock(t, num);
      OneStored(t, disk, disk[b := Spliced(disk[b], InodeOffset(t, num), ino)], num, ino)
  {
    SlotInTable(t, num);
    var b := InodeBlock(t, num);
    var disk' := disk[b := Spliced(disk[b], InodeOffset(t, num), ino)];
    forall m: nat | HasInode(t, m)
      ensures Stored(t, disk', m) == if m == num then ino else Stored(t, disk, m)
    {
      SlotInTable(t, m);
      if m != num {
        SlotsDisjoint(t, m, num);
      }
    }
  }

  /** write_inode */
  method WriteInode(t: Tables, disk: array<Block>, num: nat, ino: seq<Byte>)
    requires Holds(t, disk[..]) && HasInode(t, num) && |ino| == INODE_BYTES
    modifies disk
    ensures OneStored(t, old(disk[..]), disk[..], num, ino)
  {
    ReplaceStores(t, disk[..], num, ino);
    var block, offset := Locate(t, num);
    disk[block] := Spliced(disk[block], offset, ino);
  }

  /** read_inode */
  method ReadInode(t: Tables, disk: array<Block>, num: nat) returns (ino: seq<Byte>)
    requires Holds(t, disk[..]) && HasInode(t, num)
    ensures ino == Stored(t, disk[..], num)
  {
    SlotInTable(t, num);
    var block, offset := Locate(t, num);
    ino := disk[block][offset..offset + INODE_BYTES];
  }

  /** The macros as the C code evaluates them. */
  method Locate(t: Tables, num: nat) returns (block: nat, offset: nat)
    requires TablesOk(t) && HasInode(t, num)
    ensures block == InodeBlock(t, num) && offset == InodeOffset(t, num)
  {
    DivisionIs(num - 1, t.inodesPerGroup);
    var index := (num - 1) % t.inodesPerGroup;
    TimesIs(index, t.inodeSize);
    DivisionIs(index * t.inodeSize, t.blockSize);
    block := index * t.inodeSize / t.blockSize + t.table[(num - 1) / t.inodesPerGroup];
    DivisionIs(index, PerBlock(t));
    TimesIs(index % PerBlock(t), t.inodeSize);
    offset := t.inodeSize * (index % PerBlock(t));
  }
}
