/** Reading and writing files in chunks of blocks (sys/fs/ext2/read_write.c). */
module Ext2File {
  import opened Bytes
  import opened Ext2Layout
  import opened Ext2Free
  import opened Ext2Alloc
  import opened Ext2Volume
  import opened Ext2Truncate
  import opened Ext2Tree
  import opened Ext2Map

  // ---------------------------------------------------------------------------------
  // A file as one array of bytes
  // ---------------------------------------------------------------------------------

  predicate MappedAt(geo: Geometry, pos: nat)
    requires geo.blockSize > 0
  {
    Mapped(geo, LogicalBlock(geo, pos))
  }

  predicate RangeMapped(geo: Geometry, pos: nat, n: nat)
    requires geo.blockSize > 0
  {
    forall q: nat | pos <= q < pos + n :: MappedAt(geo, q)
  }

  function ByteAt(geo: Geometry, f: File, pos: nat): Byte
    requires FileOk(geo, f) && MappedAt(geo, pos)
  {
    BlockContent(geo, f, LogicalBlock(geo, pos))[Offset(geo, pos)]
  }

  /** Byte pos of a file is byte pos % blockSize of the block that is mapped for
      pos / blockSize, and 0 if there is none. */
  lemma ByteIs(geo: Geometry, f: File, pos: nat)
    requires FileOk(geo, f)
    ensures MappedAt(geo, pos) <==> Mapped(geo, pos / geo.blockSize)
    ensures MappedAt(geo, pos) ==>
      var b := Lookup(geo, f, pos / geo.blockSize);
      && (b == 0 || (b < |f.v.disk| && |f.v.disk[b]| == geo.blockSize))
      && ByteAt(geo, f, pos) == if b == 0 then 0 else f.v.disk[b][pos % geo.blockSize]
  {
    DivisionIs(pos, geo.blockSize);
    if MappedAt(geo, pos) {
      MappedExactly(geo, pos / geo.blockSize);
      PointerInside(geo, f, NodeOf(geo, pos / geo.blockSize));
    }
  }

  /** There is a block for this byte, not a hole. */
  predicate Backed(geo: Geometry, f: File, pos: nat)
    requires FileOk(geo, f) && MappedAt(geo, pos)
  {
    Lookup(geo, f, LogicalBlock(geo, pos)) != 0
  }

  /** f' is f with the bytes from pos on replaced by `bytes`, and nothing else changed. */
  ghost predicate Replaced(geo: Geometry, f: File, f': File, pos: nat, bytes: seq<Byte>) {
    && FileOk(geo, f) && FileOk(geo, f') && RangeMapped(geo, pos, |bytes|)
    && (forall q: nat | MappedAt(geo, q) ::
          ByteAt(geo, f', q) == if pos <= q < pos + |bytes| then bytes[q - pos] else ByteAt(geo, f, q))
    && (forall q: nat | MappedAt(geo, q) && (pos <= q < pos + |bytes| || Backed(geo, f, q)) :: Backed(geo, f', q))
  }

  /** Where a byte lies in its block. */
  function Offset(geo: Geometry, pos: nat): (off: nat)
    requires geo.blockSize > 0
    ensures off < geo.blockSize
  {
    Remainder(pos, geo.blockSize)
  }

  /** The chunk at pos lies in one block, so its bytes are found there. */
  lemma ChunkBytes(geo: Geometry, pos: nat, n: nat, q: nat)
    requires geo.blockSize > 0 && Offset(geo, pos) + n <= geo.blockSize
    ensures pos <= q < pos + n <==>
              LogicalBlock(geo, q) == LogicalBlock(geo, pos) && Offset(geo, pos) <= Offset(geo, q) < Offset(geo, pos) + n
    ensures pos <= q < pos + n ==> Offset(geo, q) - Offset(geo, pos) == q - pos
  {
    Division(pos, geo.blockSize);
    Division(q, geo.blockSize);
    if pos <= q < pos + n {
      StayInBlock(pos, q - pos, geo.blockSize);
    }
  }

  /** The file once the block of pos has been created and bytes spliced into it. */
  function ChunkWritten(geo: Geometry, own: nat, f: File, pos: nat, bytes: seq<Byte>): File
    requires FileOk(geo, f) && own < |geo.bitmap| && MappedAt(geo, pos)
    requires Offset(geo, pos) + |bytes| <= geo.blockSize
    requires Lookup(geo, Created(geo, own, f, LogicalBlock(geo, pos)), LogicalBlock(geo, pos)) != 0
  {
    var l := LogicalBlock(geo, pos);
    var f1 := Created(geo, own, f, l);
    MappedExactly(geo, l);
    Written(geo, f1, NodeOf(geo, l), Spliced(BlockContent(geo, f1, l), Offset(geo, pos), bytes))
  }

  lemma ChunkByte(geo: Geometry, own: nat, f: File, pos: nat, bytes: seq<Byte>, q: nat)
    requires FileOk(geo, f) && own < |geo.bitmap| && MappedAt(geo, pos) && MappedAt(geo, q)
    requires Offset(geo, pos) + |bytes| <= geo.blockSize
    requires Lookup(geo, Created(geo, own, f, LogicalBlock(geo, pos)), LogicalBlock(geo, pos)) != 0
    ensures var f' := ChunkWritten(geo, own, f, pos, bytes);
      && FileOk(geo, f')
      && ByteAt(geo, f', q) == (if pos <= q < pos + |bytes| then bytes[q - pos] else ByteAt(geo, f, q))
      && (pos <= q < pos + |bytes| || Backed(geo, f, q) ==> Backed(geo, f', q))
  {
    var l, k := LogicalBlock(geo, pos), LogicalBlock(geo, q);
    var f1 := Created(geo, own, f, l);
    MappedExactly(geo, l);
    MappedExactly(geo, k);
    CreateKeepsMap(geo, own, f, l, k);
    ChunkBytes(geo, pos, |bytes|, q);
    var c := Spliced(BlockContent(geo, f1, l), Offset(geo, pos), bytes);
    WrittenEffect(geo, f1, NodeOf(geo, l), c, NodeOf(geo, k));
    if k != l && NodeOf(geo, k) == NodeOf(geo, l) {
      PlacesDiffer(geo, k, l);
    }
    hide FileOk, At, IsNode, Create, Mapped, NodeOf;
  }

  /** Creating the block of pos and splicing bytes into it replaces exactly those bytes. */
  lemma ChunkReplaced(geo: Geometry, own: nat, f: File, pos: nat, bytes: seq<Byte>)
    requires FileOk(geo, f) && own < |geo.bitmap| && MappedAt(geo, pos)
    requires Offset(geo, pos) + |bytes| <= geo.blockSize
    requires Lookup(geo, Created(geo, own, f, LogicalBlock(geo, pos)), LogicalBlock(geo, pos)) != 0
    ensures Replaced(geo, f, ChunkWritten(geo, own, f, pos, bytes), pos, bytes)
  {
    var f' := ChunkWritten(geo, own, f, pos, bytes);
    ChunkByte(geo, own, f, pos, bytes, pos);
    forall q: nat | MappedAt(geo, q)
      ensures ByteAt(geo, f', q) == if pos <= q < pos + |bytes| then bytes[q - pos] else ByteAt(geo, f, q)
      ensures pos <= q < pos + |bytes| || Backed(geo, f, q) ==> Backed(geo, f', q)
    {
      ChunkByte(geo, own, f, pos, bytes, q);
    }
    forall q: nat | pos <= q < pos + |bytes|
      ensures MappedAt(geo, q)
    {
      ChunkBytes(geo, pos, |bytes|, q);
    }
  }

  lemma ReplacedTwice(geo: Geometry, f: File, f1: File, f2: File, pos: nat, xs: seq<Byte>, ys: seq<Byte>)
    requires Replaced(geo, f, f1, pos, xs) && Replaced(geo, f1, f2, pos + |xs|, ys)
    ensures Replaced(geo, f, f2, pos, xs + ys)
  {
    forall q: nat | MappedAt(geo, q)
      ensures ByteAt(geo, f2, q) == if pos <= q < pos + |xs + ys| then (xs + ys)[q - pos] else ByteAt(geo, f, q)
    {
    }
  }

  // ---------------------------------------------------------------------------------
  // Other files
  // ---------------------------------------------------------------------------------

  /** g' holds the same blocks with the same bytes as g. */
  ghost predicate SameFile(geo: Geometry, g: File, g': File) {
    && FileOk(geo, g) && FileOk(geo, g')
    && forall m | IsNode(geo, m) :: At(geo, g', m) == At(geo, g, m) && Content(geo, g', m) == Content(geo, g, m)
  }

  /** Every file of the volume that was apart from f is the same, and apart from f'. */
  ghost predicate OthersKept(geo: Geometry, f: File, f': File) {
    && FileOk(geo, f) && FileOk(geo, f')
    && forall g {:trigger Apart(geo, f, g)} | FileOk(geo, g) && Apart(geo, f, g) :: SameFile(geo, g, g.(v := f'.v)) && Apart(geo, f', g.(v := f'.v))
  }

  lemma OthersKeptTwice(geo: Geometry, f: File, f1: File, f2: File)
    requires OthersKept(geo, f, f1) && OthersKept(geo, f1, f2)
    ensures OthersKept(geo, f, f2)
  {
    forall g | FileOk(geo, g) && Apart(geo, f, g)
      ensures SameFile(geo, g, g.(v := f2.v)) && Apart(geo, f2, g.(v := f2.v))
    {
      var g1 := g.(v := f1.v);
      assert SameFile(geo, g, g1) && Apart(geo, f1, g1);
      assert SameFile(geo, g1, g1.(v := f2.v));
    }
  }

  lemma GrownKeepsOthers(geo: Geometry, f: File, f': File, n: Node)
    requires Grown(geo, f, f', n)
    ensures OthersKept(geo, f, f')
  {
    forall g | FileOk(geo, g) && Apart(geo, f, g)
      ensures SameFile(geo, g, g.(v := f'.v)) && Apart(geo, f', g.(v := f'.v))
    {
      OthersKeptByGrowing(geo, f, f', n, g);
    }
  }

  lemma CreatedKeepsOthers(geo: Geometry, own: nat, f: File, l: nat)
    requires FileOk(geo, f) && own < |geo.bitmap| && Mapped(geo, l)
    ensures OthersKept(geo, f, Created(geo, own, f, l))
  {
    MappedExactly(geo, l);
    GrownKeepsOthers(geo, f, Created(geo, own, f, l), NodeOf(geo, l));
  }

  lemma ChunkKeepsOthers(geo: Geometry, own: nat, f: File, pos: nat, bytes: seq<Byte>)
    requires FileOk(geo, f) && own < |geo.bitmap| && MappedAt(geo, pos)
    requires Offset(geo, pos) + |bytes| <= geo.blockSize
    requires Lookup(geo, Created(geo, own, f, LogicalBlock(geo, pos)), LogicalBlock(geo, pos)) != 0
    ensures OthersKept(geo, f, ChunkWritten(geo, own, f, pos, bytes))
  {
    var l := LogicalBlock(geo, pos);
    var f1, f2 := Created(geo, own, f, l), ChunkWritten(geo, own, f, pos, bytes);
    MappedExactly(geo, l);
    CreatedKeepsOthers(geo, own, f, l);
    var c := Spliced(BlockContent(geo, f1, l), Offset(geo, pos), bytes);
    WrittenEffect(geo, f1, NodeOf(geo, l), c, NodeOf(geo, l));
    forall g | FileOk(geo, g) && Apart(geo, f1, g)
      ensures SameFile(geo, g, g.(v := f2.v)) && Apart(geo, f2, g.(v := f2.v))
    {
      OthersKeptByWriting(geo, f1, NodeOf(geo, l), c, g);
    }
    OthersKeptTwice(geo, f, f1, f2);
  }

  /** The bytes of f from pos on are replaced, and nothing else changes in any file. */
  ghost predicate Wrote(geo: Geometry, f: File, f': File, pos: nat, bytes: seq<Byte>) {
    Replaced(geo, f, f', pos, bytes) && OthersKept(geo, f, f')
  }

  lemma WroteTwice(geo: Geometry, f: File, f1: File, f2: File, pos: nat, xs: seq<Byte>, ys: seq<Byte>)
    requires Wrote(geo, f, f1, pos, xs) && Wrote(geo, f1, f2, pos + |xs|, ys)
    ensures Wrote(geo, f, f2, pos, xs + ys)
  {
    ReplacedTwice(geo, f, f1, f2, pos, xs, ys);
    OthersKeptTwice(geo, f, f1, f2);
  }

  // ---------------------------------------------------------------------------------
  // Writing
  // ---------------------------------------------------------------------------------

  const EFBIG: int := 21
  const EOVERFLOW: int := 64
  const OFF_MAX: nat := 0x7FFF_FFFF

  /** A 32-bit unsigned count stored in a signed off_t. */
  function Signed(count: nat): int
    requires count < 0x1_0000_0000
  {
    if count <= OFF_MAX then count else count - 0x1_0000_0000
  }

  /** The byte loop of file_write. */
  method CopyIn(vol: Volume, b: nat, off: nat, buf: seq<Byte>, p: nat, nr: nat)
    requires b < vol.disk.Length && off + nr <= |vol.disk[b]| && p + nr <= |buf|
    modifies vol.disk
    ensures vol.disk[..] == old(vol.disk[..])[b := Spliced(old(vol.disk[b]), off, buf[p..p + nr])]
  {
    ghost var bl, was := vol.disk[b], vol.disk[..];
    var i := 0;
    assert Spliced(bl, off, buf[p..p]) == bl;
    while i < nr
      invariant i <= nr
      invariant vol.disk[b] == Spliced(bl, off, buf[p..p + i])
      invariant vol.disk[..] == was[b := vol.disk[b]]
    {
      vol.disk[b] := WithByteAt(vol.disk[b], off + i, buf[p + i]);
      SplicedNext(bl, off, buf, p, i);
      i := i + 1;
    }
  }

  lemma SplicedNext(bl: Block, off: nat, buf: seq<Byte>, p: nat, i: nat)
    requires off + i < |bl| && p + i < |buf|
    ensures WithByteAt(Spliced(bl, off, buf[p..p + i]), off + i, buf[p + i]) == Spliced(bl, off, buf[p..p + i + 1])
  {
  }

  /** As much of a chunk at pos as its block holds. */
  function ChunkSize(geo: Geometry, pos: nat, c: nat): (nr: nat)
    requires geo.blockSize > 0
    ensures nr <= c && Offset(geo, pos) + nr <= geo.blockSize && (c > 0 ==> nr > 0)
  {
    if geo.blockSize - Offset(geo, pos) < c then geo.blockSize - Offset(geo, pos) else c
  }

  /** One round: creates the block of pos and fills it as far as the bytes go; also, the
      number of bytes written, 0 if there is no block. */
  function Chunk(geo: Geometry, own: nat, f: File, pos: nat, bytes: seq<Byte>): (r: (File, nat))
    requires FileOk(geo, f) && own < |geo.bitmap| && MappedAt(geo, pos) && bytes != []
    ensures FileOk(geo, r.0) && r.1 <= |bytes|
  {
    var l := LogicalBlock(geo, pos);
    var nr := ChunkSize(geo, pos, |bytes|);
    CreateKeepsMap(geo, own, f, l, l);
    if Lookup(geo, Created(geo, own, f, l), l) == 0 then (Created(geo, own, f, l), 0)
    else
      ChunkByte(geo, own, f, pos, bytes[..nr], pos);
      (ChunkWritten(geo, own, f, pos, bytes[..nr]), nr)
  }

  lemma ChunkEffect(geo: Geometry, own: nat, f: File, pos: nat, bytes: seq<Byte>)
    requires FileOk(geo, f) && own < |geo.bitmap| && MappedAt(geo, pos) && bytes != []
    ensures var (f', nr) := Chunk(geo, own, f, pos, bytes);
      Wrote(geo, f, f', pos, bytes[..nr]) && (nr == 0 ==> f'.v.total == 0)
  {
    var l := LogicalBlock(geo, pos);
    var nr := ChunkSize(geo, pos, |bytes|);
    if Lookup(geo, Created(geo, own, f, l), l) == 0 {
      NothingWritten(geo, own, f, pos);
    } else {
      ChunkReplaced(geo, own, f, pos, bytes[..nr]);
      ChunkKeepsOthers(geo, own, f, pos, bytes[..nr]);
    }
  }

  lemma FoundBlock(geo: Geometry, f: File, l: nat)
    requires FileOk(geo, f) && Mapped(geo, l) && Lookup(geo, f, l) != 0
    ensures InUse(geo, f.v.disk, Lookup(geo, f, l))
    ensures f.v.disk[Lookup(geo, f, l)] == BlockContent(geo, f, l)
  {
    MappedExactly(geo, l);
  }

  /** Growing a file, wherever, writes no byte of any file. */
  lemma GrownWritesNothing(geo: Geometry, f: File, f': File, n: Node, pos: nat)
    requires Grown(geo, f, f', n)
    ensures Wrote(geo, f, f', pos, [])
  {
    GrownKeepsOthers(geo, f, f', n);
    forall q: nat | MappedAt(geo, q)
      ensures ByteAt(geo, f', q) == ByteAt(geo, f, q) && (Backed(geo, f, q) ==> Backed(geo, f', q))
    {
      MappedExactly(geo, LogicalBlock(geo, q));
      var m := NodeOf(geo, LogicalBlock(geo, q));
      assert Added(geo, f, f', n, m);
      GrownIsInvisible(geo, f, f', n, m);
    }
  }

  lemma NothingWritten(geo: Geometry, own: nat, f: File, pos: nat)
    requires FileOk(geo, f) && own < |geo.bitmap| && MappedAt(geo, pos)
    ensures var l := LogicalBlock(geo, pos); var f' := Created(geo, own, f, l);
      Wrote(geo, f, f', pos, []) && (Lookup(geo, f', l) == 0 ==> f'.v.total == 0)
  {
    var l := LogicalBlock(geo, pos);
    MappedExactly(geo, l);
    GrownWritesNothing(geo, f, Created(geo, own, f, l), NodeOf(geo, l), pos);
  }

  /** Creating a block for this byte goes wrong: the code takes block numbers for bytes, or
      leaves a pointer block that is there. */
  predicate WriteStrays(geo: Geometry, f: File, pos: nat)
    requires FileOk(geo, f)
  {
    InIndirect(geo, LogicalBlock(geo, pos)) || Strays(geo, f, pos)
  }

  /** What one round does at pos: a chunk is written; or nothing, because the volume is full;
      or it is lost. */
  ghost predicate Round(geo: Geometry, f: File, f': File, pos: nat, bytes: seq<Byte>, nr: nat, lost: bool) {
    && nr <= |bytes| && Wrote(geo, f, f', pos, bytes[..nr])
    && (lost ==> nr == 0 && !MappedAt(geo, pos) && WriteStrays(geo, f', pos))
    && (!lost && nr == 0 ==> f'.v.total == 0)
  }

  lemma RoundBehind(geo: Geometry, own: nat, f: File, pos: nat, bytes: seq<Byte>)
    requires FileOk(geo, f) && own < |geo.bitmap| && !MappedAt(geo, pos) && !InIndirect(geo, LogicalBlock(geo, pos))
    ensures var l := LogicalBlock(geo, pos);
      && FirstTriple(geo) <= l && IsNode(geo, Brink(geo, l))
      && var f' := Create(geo, own, f, Brink(geo, l));
         Round(geo, f, f', pos, bytes, 0, At(geo, f', Brink(geo, l)) != 0)
  {
    var l := LogicalBlock(geo, pos);
    BrinkIsNode(geo, l);
    GrownWritesNothing(geo, f, Create(geo, own, f, Brink(geo, l)), Brink(geo, l), pos);
    assert bytes[..0] == [];
  }

  /** One round of file_write where there is a block. */
  method WriteChunk(vol: Volume, ip: Inode, block: nat, buf: seq<Byte>, p: nat, pos: nat, ghost f: File) returns (nr: nat)
    requires Ready(vol, ip) && FileOk(vol.geo, f) && MappedAt(vol.geo, pos) && p < |buf|
    requires FileOf(vol, ip) == Created(vol.geo, OwnGroup(vol, ip), f, LogicalBlock(vol.geo, pos))
    requires block != 0 && block == Lookup(vol.geo, FileOf(vol, ip), LogicalBlock(vol.geo, pos))
    modifies vol.disk
    ensures Mounted(vol, ip)
    ensures (FileOf(vol, ip), nr) == Chunk(vol.geo, OwnGroup(vol, ip), f, pos, buf[p..])
  {
    ghost var own := OwnGroup(vol, ip);
    DivisionIs(pos, vol.geo.blockSize);
    var off := pos % vol.geo.blockSize;
    nr := ChunkSize(vol.geo, pos, |buf| - p);
    ghost var f1 := FileOf(vol, ip);
    FoundBlock(vol.geo, f1, LogicalBlock(vol.geo, pos));
    hide FileOk, BlockContent;
    CopyIn(vol, block, off, buf, p, nr);
    assert buf[p..][..nr] == buf[p..p + nr];
    assert FileOf(vol, ip) == ChunkWritten(vol.geo, own, f, pos, buf[p..p + nr]);
  }

  /** One round of file_write. In the single-indirect range it is lost at once. */
  method WriteRound(vol: Volume, ip: Inode, buf: seq<Byte>, p: nat, pos: nat) returns (nr: nat, lost: bool)
    requires Ready(vol, ip) && p < |buf|
    modifies vol`total, vol.disk, vol.freeCount, ip`sectors, ip`modified, ip.block
    ensures Ready(vol, ip) && Round(vol.geo, old(FileOf(vol, ip)), FileOf(vol, ip), pos, buf[p..], nr, lost)
  {
    ghost var own, f := OwnGroup(vol, ip), FileOf(vol, ip);
    DivisionIs(pos, vol.geo.blockSize);
    if InIndirect(vol.geo, pos / vol.geo.blockSize) {
      GrownNothing(vol.geo, f, Node(0, []));
      GrownWritesNothing(vol.geo, f, f, Node(0, []), pos);
      assert buf[p..][..0] == [];
      return 0, true;
    }
    var block;
    block, lost := CreateBlock(vol, ip, pos);
    if !MappedAt(vol.geo, pos) {
      RoundBehind(vol.geo, own, f, pos, buf[p..]);
      return 0, lost;
    }
    ChunkEffect(vol.geo, own, f, pos, buf[p..]);
    if block == 0 {
      return 0, false;
    }
    nr := WriteChunk(vol, ip, block, buf, p, pos, f);
  }

  lemma PrefixGrows(buf: seq<Byte>, n: nat, nr: nat)
    requires n + nr <= |buf|
    ensures buf[..n] + buf[n..][..nr] == buf[..n + nr]
  {
  }

  /** One more round. */
  lemma RoundAfter(geo: Geometry, f: File, g: File, g': File, pos: nat, buf: seq<Byte>, n: nat, nr: nat, lost: bool)
    requires n <= |buf| && Wrote(geo, f, g, pos, buf[..n]) && Round(geo, g, g', pos + n, buf[n..], nr, lost)
    ensures FileOk(geo, g') && n + nr <= |buf| && Wrote(geo, f, g', pos, buf[..n + nr])
    ensures lost ==> nr == 0 && !MappedAt(geo, pos + n) && WriteStrays(geo, g', pos + n)
    ensures !lost && nr == 0 ==> g'.v.total == 0
  {
    hide FileOk, WriteStrays, MappedAt, RangeMapped, SameFile, Apart;
    PrefixGrows(buf, n, nr);
    WroteTwice(geo, f, g, g', pos, buf[..n], buf[n..][..nr]);
  }

  /** The next round, where n bytes have been written since the file was f. */
  method WriteNext(vol: Volume, ip: Inode, buf: seq<Byte>, n: nat, pos: nat, ghost f: File, ghost fpos: nat) returns (nr: nat, lost: bool)
    requires Ready(vol, ip) && n < |buf| && pos == fpos + n
    requires Wrote(vol.geo, f, FileOf(vol, ip), fpos, buf[..n])
    modifies vol`total, vol.disk, vol.freeCount, ip`sectors, ip`modified, ip.block
    ensures Ready(vol, ip) && n + nr <= |buf| && Wrote(vol.geo, f, FileOf(vol, ip), fpos, buf[..n + nr])
    ensures lost ==> nr == 0 && !MappedAt(vol.geo, pos) && WriteStrays(vol.geo, FileOf(vol, ip), pos)
    ensures !lost && nr == 0 ==> vol.total == 0
  {
    ghost var g := FileOf(vol, ip);
    nr, lost := WriteRound(vol, ip, buf, n, pos);
    RoundAfter(vol.geo, f, g, FileOf(vol, ip), fpos, buf, n, nr, lost);
  }

  /** The loop of file_write; c is the number of bytes left. */
  method WriteRounds(vol: Volume, ip: Inode, buf: seq<Byte>, fpos: nat) returns (c: nat, pos: nat, lost: bool)
    requires Ready(vol, ip)
    modifies vol`total, vol.disk, vol.freeCount, ip`sectors, ip`modified, ip.block
    ensures Ready(vol, ip) && c <= |buf| && pos == fpos + (|buf| - c)
    ensures Wrote(vol.geo, old(FileOf(vol, ip)), FileOf(vol, ip), fpos, buf[..|buf| - c])
    ensures lost ==> c > 0 && !MappedAt(vol.geo, pos) && WriteStrays(vol.geo, FileOf(vol, ip), pos)
    ensures !lost && c > 0 ==> vol.total == 0
  {
    ghost var f := FileOf(vol, ip);
    NothingYet(vol.geo, f, fpos, buf);
    assert vol.geo.blockSize > 0;
    hide FileOk, Wrote, WriteStrays, MappedAt, Mounted;
    c, pos, lost := |buf|, fpos, false;
    ghost var n := 0;
    while c > 0
      invariant Ready(vol, ip) && n + c == |buf| && pos == fpos + n && !lost
      invariant Wrote(vol.geo, f, FileOf(vol, ip), fpos, buf[..n])
    {
      var nr;
      nr, lost := WriteNext(vol, ip, buf, |buf| - c, pos, f, fpos);
      if nr == 0 {
        return;
      }
      c, pos, n := c - nr, pos + nr, n + nr;
    }
  }

  lemma NothingYet(geo: Geometry, f: File, fpos: nat, buf: seq<Byte>)
    requires FileOk(geo, f)
    ensures Wrote(geo, f, f, fpos, buf[..0])
  {
    GrownNothing(geo, f, Node(0, []));
    GrownWritesNothing(geo, f, f, Node(0, []), fpos);
    assert buf[..0] == [];
  }

  /** The size of a file after writing n bytes at pos, as it is meant. */
  function SizeMeant(size: nat, pos: nat, n: nat): nat {
    if pos + n > size then pos + n else size
  }

  /** file_write adds the bytes written to the size. That is what is meant exactly if the bytes
      were appended; overwriting makes the file look longer than it is. */
  lemma SizeIsMeant(size: nat, pos: nat, n: nat)
    requires n > 0 && size < WORD && pos + n < WORD
    ensures (size + n) % WORD == SizeMeant(size, pos, n) <==> pos == size
    ensures pos < size && size + n < WORD ==> (size + n) % WORD > SizeMeant(size, pos, n)
  {
  }

  /** file_write: a negative result is an error. Otherwise the first `ret` bytes of the buffer
      replace those of the file from fpos on, nothing else in this file or in any other
      changes, the offset moves by `ret`, and bytes are left over only if the volume is full.
      `lost` tells that it came to a byte outside the ranges that work, having written the
      bytes before it. */
  method FileWrite(vol: Volume, ip: Inode, buf: seq<Byte>, count: nat, fpos: int) returns (ret: int, pos: int, lost: bool)
    requires Ready(vol, ip) && count < 0x1_0000_0000 && |buf| == count
    requires 0 <= fpos && count <= OFF_MAX ==> fpos + count <= OFF_MAX
    modifies vol`total, vol.disk, vol.freeCount, ip, ip.block
    ensures Ready(vol, ip)
    ensures ret < 0 <==> count > OFF_MAX || fpos < 0
    ensures ret < 0 ==> ret == (if count > OFF_MAX then -EOVERFLOW else -EFBIG) && pos == fpos && !lost
    ensures ret < 0 ==> FileOf(vol, ip) == old(FileOf(vol, ip)) && ip.size == old(ip.size)
    ensures ret >= 0 ==>
              && ret <= count && pos == fpos + ret
              && Wrote(vol.geo, old(FileOf(vol, ip)), FileOf(vol, ip), fpos, buf[..ret])
              && (lost ==> ret < count && !MappedAt(vol.geo, pos) && WriteStrays(vol.geo, FileOf(vol, ip), pos))
              && (!lost ==>
                    && (ret < count ==> vol.total == 0)
                    && ip.size == (old(ip.size) + ret) % WORD && ip.modified
                    && (ret > 0 ==> (ip.size == SizeMeant(old(ip.size), fpos, ret) <==> fpos == old(ip.size))))
  {
    hide FileOk, Wrote, WriteStrays;
    var c := Signed(count);
    pos, lost := fpos, false;
    if c < 0 {
      return -EOVERFLOW, pos, false;
    }
    if fpos < 0 {
      return -EFBIG, pos, false;
    }
    ghost var f := FileOf(vol, ip);
    c, pos, lost := WriteRounds(vol, ip, buf, fpos);
    ret := count - c;
    if lost {
      return;
    }
    ghost var f' := FileOf(vol, ip);
    ip.size := (ip.size + (count - c)) % WORD;
    if ret > 0 {
      SizeIsMeant(old(ip.size), fpos, ret);
    }
    ip.modified := true;
    assert FileOf(vol, ip) == f';
  }

  // ---------------------------------------------------------------------------------
  // Reading
  // ---------------------------------------------------------------------------------

  /** out holds the file's first n bytes from pos on, none of them in a hole. */
  ghost predicate ReadSoFar(geo: Geometry, f: File, pos: nat, n: nat, out: seq<Byte>)
    requires FileOk(geo, f)
  {
    n <= |out| && forall i: nat | i < n :: ReadByte(geo, f, pos, i, out)
  }

  ghost predicate ReadByte(geo: Geometry, f: File, pos: nat, i: nat, out: seq<Byte>)
    requires FileOk(geo, f) && i < |out|
  {
    MappedAt(geo, pos + i) && Backed(geo, f, pos + i) && out[i] == ByteAt(geo, f, pos + i)
  }

  lemma ReadKept(geo: Geometry, f: File, pos: nat, n: nat, out: seq<Byte>, out': seq<Byte>)
    requires FileOk(geo, f) && ReadSoFar(geo, f, pos, n, out) && |out'| == |out|
    requires forall i | 0 <= i < n :: out'[i] == out[i]
    ensures ReadSoFar(geo, f, pos, n, out')
  {
    forall i: nat | i < n
      ensures ReadByte(geo, f, pos, i, out')
    {
      assert ReadByte(geo, f, pos, i, out);
    }
  }

  /** Nothing to read at this byte: no block, or none that a lookup finds. */
  predicate Hole(geo: Geometry, f: File, pos: nat)
    requires FileOk(geo, f)
  {
    !MappedAt(geo, pos) || !Backed(geo, f, pos)
  }

  /** Looking for the block of this byte leaves a pointer block. */
  predicate Strays(geo: Geometry, f: File, pos: nat)
    requires FileOk(geo, f)
  {
    LookupStrays(geo, f, LogicalBlock(geo, pos))
  }

  /** What reading `count` bytes at fpos yields. Without a hole, the bytes, their number, and
      an offset moved by it. From the first hole on, all zeros; the number is then one too
      large, in the 32 bits of a ssize_t, and the offset stays at the hole. */
  ghost predicate ReadResult(geo: Geometry, f: File, fpos: nat, count: nat, out: seq<Byte>, ret: int, pos: int)
    requires FileOk(geo, f)
  {
    && |out| == count <= OFF_MAX && fpos <= pos <= fpos + count
    && ReadSoFar(geo, f, fpos, pos - fpos, out)
    && (pos == fpos + count ==> ret == count)
    && (pos < fpos + count ==>
          && ret == Signed(count + 1)
          && Hole(geo, f, pos) && !Strays(geo, f, pos)
          && forall i | pos - fpos <= i < count :: out[i] == 0)
  }

  /** Reading leaves a pointer block before it meets another hole. */
  ghost predicate ReadStrays(geo: Geometry, f: File, fpos: nat, count: nat)
    requires FileOk(geo, f)
  {
    exists q: nat | fpos <= q < fpos + count :: Strays(geo, f, q) && forall r: nat | fpos <= r < q :: !Hole(geo, f, r)
  }

  lemma ReadEnds(geo: Geometry, f: File, fpos: nat, count: nat, out: seq<Byte>, ret: int, pos: nat)
    requires FileOk(geo, f) && |out| == count
    ensures fpos <= pos < fpos + count && Strays(geo, f, pos) && ReadSoFar(geo, f, fpos, pos - fpos, out) ==>
              ReadStrays(geo, f, fpos, count)
    ensures ReadResult(geo, f, fpos, count, out, ret, pos) ==> !ReadStrays(geo, f, fpos, count)
  {
    if fpos <= pos && ReadSoFar(geo, f, fpos, pos - fpos, out) {
      forall r: nat | fpos <= r < pos
        ensures !Hole(geo, f, r)
      {
        assert ReadByte(geo, f, fpos, r - fpos, out);
      }
      forall q: nat | Strays(geo, f, q)
        ensures Hole(geo, f, q)
      {
      }
    }
  }

  /** The bytes of a chunk are bytes of its block. */
  lemma ChunkRead(geo: Geometry, f: File, pos: nat, nr: nat, d: nat)
    requires FileOk(geo, f) && MappedAt(geo, pos) && Backed(geo, f, pos)
    requires d < nr && Offset(geo, pos) + nr <= geo.blockSize
    ensures MappedAt(geo, pos + d) && Backed(geo, f, pos + d)
    ensures ByteAt(geo, f, pos + d) == BlockContent(geo, f, LogicalBlock(geo, pos))[Offset(geo, pos) + d]
  {
    ChunkBytes(geo, pos, nr, pos + d);
  }

  /** The byte loop of file_read. */
  method CopyOut(bl: Block, off: nat, buf: array<Byte>, p: nat, nr: nat)
    requires off + nr <= |bl| && p + nr <= buf.Length
    modifies buf
    ensures forall i | 0 <= i < buf.Length :: buf[i] == if p <= i < p + nr then bl[off + i - p] else old(buf[i])
  {
    var i := 0;
    while i < nr
      invariant i <= nr
      invariant forall j | 0 <= j < buf.Length :: buf[j] == if p <= j < p + i then bl[off + j - p] else old(buf[j])
    {
      buf[p + i] := bl[off + i];
      i := i + 1;
    }
  }

  /** The loop for holes; c ends below 0. */
  method FillHole(buf: array<Byte>, p: nat, count: nat) returns (c: int)
    requires p + count <= buf.Length
    modifies buf
    ensures c == -1
    ensures forall i | 0 <= i < buf.Length :: buf[i] == if p <= i < p + count then 0 else old(buf[i])
  {
    var i := 0;
    c := count;
    while c != 0
      invariant 0 <= c == count - i
      invariant forall j | 0 <= j < buf.Length :: buf[j] == if p <= j < p + i then 0 else old(buf[j])
      decreases c
    {
      c := c - 1;
      buf[p + i] := 0;
      i := i + 1;
    }
    c := c - 1;
  }

  /** One round of file_read where there is a block. */
  method ReadChunk(vol: Volume, ip: Inode, block: nat, buf: array<Byte>, ghost fpos: nat, p: nat, c: nat, pos: nat) returns (nr: nat)
    requires Ready(vol, ip) && MappedAt(vol.geo, pos) && 0 < c && p + c == buf.Length && pos == fpos + p
    requires block != 0 && block == Lookup(vol.geo, FileOf(vol, ip), LogicalBlock(vol.geo, pos))
    requires ReadSoFar(vol.geo, FileOf(vol, ip), fpos, p, buf[..])
    modifies buf
    ensures 0 < nr <= c && ReadSoFar(vol.geo, old(FileOf(vol, ip)), fpos, p + nr, buf[..])
  {
    ghost var f := FileOf(vol, ip);
    DivisionIs(pos, vol.geo.blockSize);
    var off := pos % vol.geo.blockSize;
    nr := ChunkSize(vol.geo, pos, c);
    FoundBlock(vol.geo, f, LogicalBlock(vol.geo, pos));
    ghost var bl, before := vol.disk[block], buf[..];
    hide FileOk, Backed, ByteAt, Lookup, ReadSoFar, LogicalBlock, MappedAt;
    CopyOut(vol.disk[block], off, buf, p, nr);
    ReadMore(vol.geo, f, fpos, p, nr, bl, before, buf[..]);
  }

  lemma ReadMore(geo: Geometry, f: File, fpos: nat, p: nat, nr: nat, bl: Block, out: seq<Byte>, out': seq<Byte>)
    requires FileOk(geo, f) && MappedAt(geo, fpos + p) && Backed(geo, f, fpos + p)
    requires Offset(geo, fpos + p) + nr <= |bl| == geo.blockSize && p + nr <= |out| == |out'|
    requires bl == BlockContent(geo, f, LogicalBlock(geo, fpos + p))
    requires ReadSoFar(geo, f, fpos, p, out)
    requires forall i | 0 <= i < |out| :: out'[i] == if p <= i < p + nr then bl[Offset(geo, fpos + p) + i - p] else out[i]
    ensures ReadSoFar(geo, f, fpos, p + nr, out')
  {
    assert GeometryOk(geo);
    hide FileOk, MappedAt, Backed, ByteAt, ReadByte;
    forall i: nat | i < p + nr
      ensures ReadByte(geo, f, fpos, i, out')
    {
      if i < p {
        assert ReadByte(geo, f, fpos, i, out);
        SameByte(geo, f, fpos, i, out, out');
      } else {
        ReadInChunk(geo, f, fpos, p, nr, bl, i, out');
      }
    }
  }

  lemma SameByte(geo: Geometry, f: File, fpos: nat, i: nat, out: seq<Byte>, out': seq<Byte>)
    requires FileOk(geo, f) && i < |out| == |out'| && ReadByte(geo, f, fpos, i, out) && out'[i] == out[i]
    ensures ReadByte(geo, f, fpos, i, out')
  {
  }

  lemma ReadInChunk(geo: Geometry, f: File, fpos: nat, p: nat, nr: nat, bl: Block, i: nat, out: seq<Byte>)
    requires FileOk(geo, f) && MappedAt(geo, fpos + p) && Backed(geo, f, fpos + p)
    requires Offset(geo, fpos + p) + nr <= |bl| == geo.blockSize && p <= i < p + nr && i < |out|
    requires bl == BlockContent(geo, f, LogicalBlock(geo, fpos + p)) && out[i] == bl[Offset(geo, fpos + p) + i - p]
    ensures ReadByte(geo, f, fpos, i, out)
  {
    assert fpos + p + (i - p) == fpos + i;
    hide FileOk;
    ChunkRead(geo, f, fpos + p, nr, i - p);
  }

  /** file_read, at any offset. `stray` tells that it read outside a pointer block, which
      leaves no result to speak of. */
  method FileRead(vol: Volume, ip: Inode, buf: array<Byte>, count: nat, fpos: int) returns (ret: int, pos: int, stray: bool)
    requires Ready(vol, ip) && count < 0x1_0000_0000 && buf.Length == count
    requires 0 <= fpos && count <= OFF_MAX ==> fpos + count <= OFF_MAX
    modifies vol`total, vol.disk, vol.freeCount, ip, ip.block, buf
    ensures Ready(vol, ip) && FileOf(vol, ip) == old(FileOf(vol, ip)) && ip.size == old(ip.size)
    ensures stray <==> 0 <= fpos && count <= OFF_MAX && ReadStrays(vol.geo, FileOf(vol, ip), fpos, count)
    ensures count > OFF_MAX || fpos < 0 ==>
              ret == (if count > OFF_MAX then -EOVERFLOW else -EFBIG) && pos == fpos && buf[..] == old(buf[..])
    ensures !stray && count <= OFF_MAX && fpos >= 0 ==> ReadResult(vol.geo, FileOf(vol, ip), fpos, count, buf[..], ret, pos)
  {
    var c := Signed(count);
    pos, stray := fpos, false;
    if c < 0 {
      return -EOVERFLOW, pos, false;
    }
    if fpos < 0 {
      return -EFBIG, pos, false;
    }
    c, pos, stray := ReadChunks(vol, ip, buf, fpos);
    ret := Signed((count - c) % WORD);
    ghost var f := FileOf(vol, ip);
    ReadEnds(vol.geo, f, fpos, count, buf[..], ret, pos);
    if stray {
      return;
    }
    ip.modified := true;
    assert FileOf(vol, ip) == f;
  }

  method ReadChunks(vol: Volume, ip: Inode, buf: array<Byte>, fpos: nat) returns (c: int, pos: nat, stray: bool)
    requires Ready(vol, ip) && buf.Length <= OFF_MAX
    modifies vol`total, vol.disk, vol.freeCount, ip`sectors, ip`modified, ip.block, buf
    ensures Ready(vol, ip) && FileOf(vol, ip) == old(FileOf(vol, ip)) && -1 <= c <= buf.Length
    ensures stray ==> fpos <= pos < fpos + buf.Length && Strays(vol.geo, FileOf(vol, ip), pos) &&
                      ReadSoFar(vol.geo, FileOf(vol, ip), fpos, pos - fpos, buf[..])
    ensures !stray ==> ReadResult(vol.geo, FileOf(vol, ip), fpos, buf.Length, buf[..], Signed((buf.Length - c) % WORD), pos)
  {
    ghost var f := FileOf(vol, ip);
    hide FileOk, Lookup, LookupStrays, LogicalBlock;
    c, pos, stray := buf.Length, fpos, false;
    while c > 0
      invariant Ready(vol, ip) && FileOf(vol, ip) == f && !stray
      invariant 0 <= c <= buf.Length && pos == fpos + buf.Length - c
      invariant ReadSoFar(vol.geo, f, fpos, buf.Length - c, buf[..])
    {
      var block, left := Bmap(vol, ip, pos);
      if left {
        stray := true;
        return;
      }
      if block != 0 {
        var nr := ReadChunk(vol, ip, block, buf, fpos, buf.Length - c, c, pos);
        c, pos := c - nr, pos + nr;
      } else {
        ghost var before := buf[..];
        var n := buf.Length - c;
        c := FillHole(buf, n, c);
        ReadKept(vol.geo, f, fpos, n, before, buf[..]);
        return;
      }
    }
  }

  /** The number of bytes is right exactly if the range has no hole. A read of the largest
      count that meets one looks like an error. */
  lemma HolesAreMiscounted(geo: Geometry, f: File, fpos: nat, count: nat, out: seq<Byte>, ret: int, pos: int)
    requires FileOk(geo, f) && ReadResult(geo, f, fpos, count, out, ret, pos)
    ensures ret == count <==> forall q: nat | fpos <= q < fpos + count :: !Hole(geo, f, q)
    ensures ret < 0 <==> count == OFF_MAX && ret != count
  {
    if ret == count {
      forall q: nat | fpos <= q < fpos + count
        ensures !Hole(geo, f, q)
      {
        assert ReadByte(geo, f, fpos, q - fpos, out);
      }
    }
  }

  /** One byte read from an empty file: two bytes are reported. */
  lemma HoleReadReportsTwo(out: seq<Byte>, ret: int, pos: int)
    ensures FileOk(SmallGeometry(), EmptyFile())
    ensures ReadResult(SmallGeometry(), EmptyFile(), 0, 1, out, ret, pos) <==> out == [0] && ret == 2 && pos == 0
  {
    FileOkIsPossible();
    var geo, f := SmallGeometry(), EmptyFile();
    assert MappedAt(geo, 0) && LogicalBlock(geo, 0) == 0;
    assert !Backed(geo, f, 0);
    assert ReadResult(geo, f, 0, 1, out, ret, pos) ==> pos != 1 by {
      assert |out| == 1 ==> !ReadByte(geo, f, 0, 0, out);
    }
  }

  /** What was written is read back, whole and from the right place. */
  lemma ReadAfterWrite(geo: Geometry, f: File, f': File, fpos: nat, bytes: seq<Byte>, out: seq<Byte>, ret: int, pos: int)
    requires Wrote(geo, f, f', fpos, bytes) && ReadResult(geo, f', fpos, |bytes|, out, ret, pos)
    ensures ret == |bytes| && out == bytes && pos == fpos + |bytes|
  {
    forall i: nat | i < |bytes|
      ensures out[i] == bytes[i]
    {
      assert ReadByte(geo, f', fpos, i, out);
    }
  }
}
