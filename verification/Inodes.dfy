/** The super block and the inodes on the disk, reached through the block cache. */
module Inodes {
  import opened BlockCache
  import opened Disk
  import opened Words

  const NDIRECT := 12
  const INODE_SIZE := 64
  const IPERBLK := BLK_SIZE / INODE_SIZE
  const SUPER_BLOCK := 32

  // ----- the structures and their bytes -----

  datatype DInode = DInode(kind: Word, device: Word, size: Word, addrs: seq<Word>)

  type DiskInode = d: DInode | |d.addrs| == NDIRECT + 1 witness DInode(0, 0, 0, seq(NDIRECT + 1, _ => 0))

  datatype Super = Super(bitmap: Word, istart: Word, inum: Word, root: Word)

  function InodeBytes(d: DiskInode): (b: seq<Byte>)
    ensures |b| == INODE_SIZE
  {
    Encode([d.kind, d.device, d.size] + d.addrs)
  }

  function InodeFrom(b: seq<Byte>): DiskInode
    requires |b| == INODE_SIZE
  {
    var ws := Decode(b);
    DInode(ws[0], ws[1], ws[2], ws[3..])
  }

  function SuperBytes(s: Super): (b: seq<Byte>)
    ensures |b| == 16
  {
    Encode([s.bitmap, s.istart, s.inum, s.root])
  }

  function SuperFrom(b: seq<Byte>): Super
    requires |b| == 16
  {
    var ws := Decode(b);
    Super(ws[0], ws[1], ws[2], ws[3])
  }

  /** The bytes of an inode and the inode determine each other. */
  lemma InodeRoundTrip(d: DiskInode, b: seq<Byte>)
    requires |b| == INODE_SIZE
    ensures InodeFrom(InodeBytes(d)) == d && InodeBytes(InodeFrom(b)) == b
  {
    DecodeEncode([d.kind, d.device, d.size] + d.addrs);
    var ws := Decode(b);
    assert [ws[0], ws[1], ws[2]] + ws[3..] == ws;
    EncodeDecode(b);
  }

  /** Type, device and size at bytes 0, 4 and 8 of an inode, and block address k behind them. */
  lemma InodeLayout(d: DiskInode, k: nat)
    requires k < NDIRECT + 1
    ensures var b := InodeBytes(d);
            && WordAt(b, 0) == d.kind && WordAt(b, 4) == d.device && WordAt(b, 8) == d.size
            && WordAt(b, 12 + 4 * k) == d.addrs[k]
  {
    var head := [d.kind, d.device, d.size];
    WordInFront(head, d.addrs, 0);
    WordInFront(head, d.addrs, 1);
    WordInFront(head, d.addrs, 2);
    WordAtEncode(head + d.addrs, 3 + k);
  }

  lemma WordInFront(head: seq<Word>, more: seq<Word>, p: nat)
    requires p < |head|
    ensures WordAt(Encode(head + more), 4 * p) == head[p]
  {
    WordAtEncode(head + more, p);
  }

  /** The places of bitmap, inodes, their number and the root in a super block. */
  lemma SuperLayout(s: Super)
    ensures var b := SuperBytes(s);
            WordAt(b, 0) == s.bitmap && WordAt(b, 4) == s.istart && WordAt(b, 8) == s.inum && WordAt(b, 12) == s.root
  {
    var ws := [s.bitmap, s.istart, s.inum, s.root];
    WordAtEncode(ws, 0);
    WordAtEncode(ws, 1);
    WordAtEncode(ws, 2);
    WordAtEncode(ws, 3);
  }

  lemma SuperRoundTrip(s: Super)
    ensures SuperFrom(SuperBytes(s)) == s
  {
    DecodeEncode([s.bitmap, s.istart, s.inum, s.root]);
  }

  // ----- where an inode is -----

  function I2BlkNo(istart: nat, no: nat): nat {
    istart + no / IPERBLK
  }

  function I2BlkOff(no: nat): (off: nat)
    ensures off + INODE_SIZE <= BLK_SIZE
  {
    no % IPERBLK * INODE_SIZE
  }

  /** How many inodes there is room for. */
  function Capacity(istart: nat): (n: nat)
    ensures forall no: nat :: no < n ==> I2BlkNo(istart, no) < BLK_NUM
  {
    if istart <= BLK_NUM then (BLK_NUM - istart) * IPERBLK else 0
  }

  /** Counted in bytes from the start of the disk, the inodes follow each other without gaps:
      so no two overlap. */
  lemma InodesInRow(istart: nat, no: nat)
    ensures I2BlkNo(istart, no) * BLK_SIZE + I2BlkOff(no) == istart * BLK_SIZE + no * INODE_SIZE
  {
  }

  function InodeAt(disk: seq<Block>, istart: nat, no: nat): DiskInode
    requires |disk| == BLK_NUM && no < Capacity(istart)
  {
    InodeFrom(disk[I2BlkNo(istart, no)][I2BlkOff(no)..I2BlkOff(no) + INODE_SIZE])
  }

  function Table(disk: seq<Block>, istart: nat): (t: seq<DiskInode>)
    requires |disk| == BLK_NUM
    ensures |t| == Capacity(istart)
  {
    seq(Capacity(istart), no requires 0 <= no < Capacity(istart) => InodeAt(disk, istart, no))
  }

  lemma SlicePatched(b: Block, no: nat, d: seq<Byte>, m: nat)
    requires no / IPERBLK == m / IPERBLK && |d| == INODE_SIZE
    ensures Patch(b, I2BlkOff(no), d)[I2BlkOff(m)..I2BlkOff(m) + INODE_SIZE] ==
            if m == no then d else b[I2BlkOff(m)..I2BlkOff(m) + INODE_SIZE]
  {
    PatchReads(b, I2BlkOff(no), d, I2BlkOff(m), I2BlkOff(m) + INODE_SIZE);
  }

  lemma InodeWritten(disk: seq<Block>, istart: nat, no: nat, d: DiskInode, m: nat)
    requires |disk| == BLK_NUM && no < Capacity(istart) && m < Capacity(istart)
    ensures var disk' := After(disk, WriteAt(I2BlkNo(istart, no), I2BlkOff(no), InodeBytes(d)));
            InodeAt(disk', istart, m) == if m == no then d else InodeAt(disk, istart, m)
  {
    InodeRoundTrip(d, InodeBytes(d));
    if I2BlkNo(istart, m) == I2BlkNo(istart, no) {
      SlicePatched(disk[I2BlkNo(istart, m)], no, InodeBytes(d), m);
    }
  }

  lemma TableWritten(disk: seq<Block>, istart: nat, no: nat, d: DiskInode)
    requires |disk| == BLK_NUM && no < Capacity(istart)
    ensures Table(After(disk, WriteAt(I2BlkNo(istart, no), I2BlkOff(no), InodeBytes(d))), istart) ==
            Table(disk, istart)[no := d]
  {
    var disk' := After(disk, WriteAt(I2BlkNo(istart, no), I2BlkOff(no), InodeBytes(d)));
    forall m | 0 <= m < Capacity(istart)
      ensures Table(disk', istart)[m] == Table(disk, istart)[no := d][m]
    {
      InodeWritten(disk, istart, no, d, m);
    }
  }

  // ----- the operations -----

  class FileSystem {
    const cache: Cache
    var sb: Super

    ghost predicate Valid()
      reads this, cache.tags, cache.mem, cache.drive.sects
    {
      cache.Valid()
    }

    /** The inodes as the disk holds them. */
    ghost function Inodes(): seq<DiskInode>
      requires Valid()
      reads this, cache.tags, cache.mem, cache.drive.sects
    {
      Table(cache.Contents(), sb.istart)
    }

    constructor (cache: Cache)
      requires cache.Valid()
      ensures Valid() && this.cache == cache
    {
      this.cache := cache;
      sb := Super(0, 0, 0, 0);
    }

    method InitFs()
      requires Valid()
      modifies this, cache.tags, cache.mem
      ensures Valid() && cache.Contents() == old(cache.Contents())
      ensures sb == SuperFrom(cache.Contents()[SUPER_BLOCK][0..16])
    {
      var b := cache.BRead(16, SUPER_BLOCK, 0);
      sb := SuperFrom(b);
    }

    method DIRead(no: nat) returns (di: DiskInode)
      requires Valid() && no < Capacity(sb.istart)
      modifies cache.tags, cache.mem
      ensures Valid() && sb == old(sb) && cache.Contents() == old(cache.Contents())
      ensures di == Inodes()[no]
    {
      var b := cache.BRead(INODE_SIZE, I2BlkNo(sb.istart, no), I2BlkOff(no));
      di := InodeFrom(b);
    }

    /** One inode changes, and no byte of the disk outside it. */
    method DIWrite(di: DiskInode, no: nat)
      requires Valid() && no < Capacity(sb.istart)
      modifies cache.tags, cache.mem, cache.drive.sects
      ensures Valid() && sb == old(sb) && Inodes() == old(Inodes())[no := di]
      ensures cache.Contents() == After(old(cache.Contents()), WriteAt(I2BlkNo(sb.istart, no), I2BlkOff(no), InodeBytes(di)))
    {
      ghost var disk := cache.Contents();
      cache.BWrite(InodeBytes(di), I2BlkNo(sb.istart, no), I2BlkOff(no));
      TableWritten(disk, sb.istart, no, di);
    }

    method DIFree(no: nat)
      requires Valid() && no < Capacity(sb.istart)
      modifies cache.tags, cache.mem, cache.drive.sects
      ensures Valid() && sb == old(sb)
      ensures Inodes() == old(Inodes())[no := DInode(0, 0, 0, seq(NDIRECT + 1, _ => 0))]
    {
      DIWrite(DInode(0, 0, 0, seq(NDIRECT + 1, _ => 0)), no);
    }
  }
}
