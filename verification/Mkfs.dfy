/** mkfs: the file system image, built in memory, that the kernel later finds at block 32. */
module Mkfs {
  import opened BlockCache
  import opened Disk
  import opened Inodes
  import opened Options
  import opened Words

  const BLK_OFF := 32
  const IMG_SIZE := (BLK_NUM - BLK_OFF) * BLK_SIZE
  const SUPER_BLK := BLK_OFF
  const BITMAP_BLK := BLK_OFF + 1
  const INODE_START := BLK_OFF + 2
  const DATA_START := BLK_OFF + 32
  const INODE_NUM := (DATA_START - INODE_START) * IPERBLK
  const TYPE_DIR: Word := 2

  // ----- addresses in the image -----

  /** Where block no begins. */
  function BGet(no: nat): (at: nat)
    requires BLK_OFF <= no < BLK_NUM
    ensures at + BLK_SIZE <= IMG_SIZE
  {
    (no - BLK_OFF) * BLK_SIZE
  }

  function IGet(no: nat): (at: nat)
    requires no < INODE_NUM
    ensures at + INODE_SIZE <= IMG_SIZE
  {
    BGet(no / IPERBLK + INODE_START) + no % IPERBLK * INODE_SIZE
  }

  /** The disk has the image from block 32 on. */
  predicate Placed(img: seq<Byte>, disk: seq<Block>)
    requires |img| == IMG_SIZE && |disk| == BLK_NUM
  {
    forall b :: BLK_OFF <= b < BLK_NUM ==> disk[b] == img[BGet(b)..BGet(b) + BLK_SIZE]
  }

  /** The bytes that mkfs takes for an inode are those that the kernel reads and writes,
      whatever the image holds. */
  lemma SameInode(img: seq<Byte>, disk: seq<Block>, no: nat)
    requires |img| == IMG_SIZE && |disk| == BLK_NUM && Placed(img, disk) && no < INODE_NUM
    ensures no < Capacity(INODE_START) && InodeAt(disk, INODE_START, no) == InodeFrom(img[IGet(no)..IGet(no) + INODE_SIZE])
  {
    var b, off := I2BlkNo(INODE_START, no), I2BlkOff(no);
    assert disk[b] == img[BGet(b)..BGet(b) + BLK_SIZE];
    SliceSlice(img, BGet(b), BGet(b) + BLK_SIZE, off, off + INODE_SIZE);
  }

  /** All inodes lie between the bitmap and the data blocks. */
  lemma InodesApart(no: nat)
    requires no < INODE_NUM
    ensures BGet(BITMAP_BLK) + BLK_SIZE <= IGet(no) && IGet(no) + INODE_SIZE <= BGet(DATA_START)
  {
  }

  // ----- bits -----

  predicate Bit(x: nat, j: nat) {
    if j == 0 then x % 2 == 1 else Bit(x / 2, j - 1)
  }

  /** x | (1 << j) */
  function SetBit(x: nat, j: nat): nat {
    if j == 0 then x / 2 * 2 + 1 else 2 * SetBit(x / 2, j - 1) + x % 2
  }

  lemma {:induction false} SetBitBits(x: nat, j: nat, i: nat)
    ensures Bit(SetBit(x, j), i) <==> i == j || Bit(x, i)
  {
    if j > 0 && i > 0 {
      SetBitBits(x / 2, j - 1, i - 1);
    } else if j > 0 {
      assert SetBit(x, j) % 2 == x % 2;
    }
  }

  lemma {:induction false} SetBitFits(x: nat, j: nat, size: nat)
    requires j < size && x < Ones(size) + 1
    ensures SetBit(x, j) < Ones(size) + 1
  {
    Halved(x, Ones(size - 1));
    if j > 0 {
      SetBitFits(x / 2, j - 1, size - 1);
      Doubled(SetBit(x / 2, j - 1), Ones(size - 1), x % 2);
    } else {
      Doubled(x / 2, Ones(size - 1), 1);
    }
  }

  lemma Halved(x: nat, ones: nat)
    requires x <= 2 * ones + 1
    ensures x / 2 <= ones && x % 2 <= 1
  {
  }

  lemma Doubled(h: nat, ones: nat, bit: nat)
    requires h <= ones && bit <= 1
    ensures 2 * h + bit < 2 * ones + 1 + 1
  {
  }

  /** A number of n binary ones. */
  function Ones(n: nat): nat {
    if n == 0 then 0 else 2 * Ones(n - 1) + 1
  }

  lemma {:induction false} OnesBits(n: nat, j: nat)
    ensures Bit(Ones(n), j) <==> j < n
  {
    if n == 0 {
      ZeroBits(j);
    } else if j > 0 {
      OnesBits(n - 1, j - 1);
    }
  }

  lemma {:induction false} ZeroBits(j: nat)
    ensures !Bit(0, j)
  {
    if j > 0 {
      ZeroBits(j - 1);
    }
  }

  // ----- the contents of the image -----

  function Blank(kind: Word): DiskInode {
    DInode(kind, 0, 0, seq(NDIRECT + 1, _ => 0))
  }

  predicate Marked(img: seq<Byte>, b: nat)
    requires |img| == IMG_SIZE && b < BLK_NUM
  {
    Bit(img[BGet(BITMAP_BLK) + b / 8] as int, b % 8)
  }

  predicate InodeIs(img: seq<Byte>, no: nat, kind: Word)
    requires |img| == IMG_SIZE && no < INODE_NUM
  {
    img[IGet(no)..IGet(no) + INODE_SIZE] == InodeBytes(Blank(kind))
  }

  function KindOf(kinds: seq<Word>, no: nat): Word {
    if no < |kinds| then kinds[no] else 0
  }

  /** The inodes taken so far have their kinds, the others are free; the bitmap marks the
      blocks given out and the first 64, and no others. */
  predicate Holding(img: seq<Byte>, kinds: seq<Word>, blocks: nat) {
    && |img| == IMG_SIZE && 1 <= |kinds| <= INODE_NUM && kinds[0] == 0 && 64 <= blocks <= BLK_NUM
    && (forall no :: 0 <= no < INODE_NUM ==> InodeIs(img, no, KindOf(kinds, no)))
    && (forall b :: 0 <= b < BLK_NUM ==> (Marked(img, b) <==> b < blocks))
  }

  predicate SuperIs(img: seq<Byte>, s: Super)
    requires |img| == IMG_SIZE
  {
    img[BGet(SUPER_BLK)..BGet(SUPER_BLK) + 16] == SuperBytes(s)
  }

  lemma KindWritten(kind: Word)
    ensures Patch(InodeBytes(Blank(0)), 0, Encode([kind])) == InodeBytes(Blank(kind))
  {
  }

  lemma BlankIsZero()
    ensures InodeBytes(Blank(0)) == seq(INODE_SIZE, _ => 0)
  {
    forall k | 0 <= k < INODE_SIZE
      ensures InodeBytes(Blank(0))[k] == 0
    {
      ZeroByte(k % 4);
    }
  }

  lemma ZeroByte(k: nat)
    ensures ByteOf(0, k) == 0
  {
    ZeroShifted(k);
  }

  lemma {:induction false} ZeroShifted(k: nat)
    ensures Shifted(0, k) == 0
  {
    if k > 0 {
      ZeroShifted(k - 1);
    }
  }

  lemma InodesDiffer(no: nat, m: nat)
    requires no < INODE_NUM && m < INODE_NUM && no != m
    ensures IGet(m) + INODE_SIZE <= IGet(no) || IGet(no) + INODE_SIZE <= IGet(m)
  {
    InodesInRow(INODE_START, m);
    InodesInRow(INODE_START, no);
  }

  /** Writing outside an inode does not change it. */
  lemma InodeKept(img: seq<Byte>, at: nat, d: seq<Byte>, m: nat, kind: Word)
    requires |img| == IMG_SIZE && m < INODE_NUM && at + |d| <= IMG_SIZE && InodeIs(img, m, kind)
    requires IGet(m) + INODE_SIZE <= at || at + |d| <= IGet(m)
    ensures InodeIs(Patch(img, at, d), m, kind)
  {
    PatchReads(img, at, d, IGet(m), IGet(m) + INODE_SIZE);
  }

  lemma InodeRetyped(img: seq<Byte>, no: nat, kind: Word)
    requires |img| == IMG_SIZE && no < INODE_NUM && InodeIs(img, no, 0)
    ensures InodeIs(Patch(img, IGet(no), Encode([kind])), no, kind)
  {
    KindWritten(kind);
    PatchInside(img, IGet(no), Encode([kind]), IGet(no), IGet(no) + INODE_SIZE);
  }

  /** Nor does writing outside the bitmap change a mark. */
  lemma MarkKept(img: seq<Byte>, at: nat, d: seq<Byte>, b: nat)
    requires |img| == IMG_SIZE && at + |d| <= IMG_SIZE && b < BLK_NUM
    requires BGet(BITMAP_BLK) + BLK_SIZE <= at || at + |d| <= BGet(BITMAP_BLK)
    ensures Marked(Patch(img, at, d), b) == Marked(img, b)
  {
    PatchOne(img, at, d, BGet(BITMAP_BLK) + b / 8);
  }

  /** What changes when the next inode is taken. */
  lemma InodeTaken(img: seq<Byte>, kinds: seq<Word>, blocks: nat, kind: Word)
    requires Holding(img, kinds, blocks) && |kinds| < INODE_NUM
    ensures Holding(Patch(img, IGet(|kinds|), Encode([kind])), kinds + [kind], blocks)
  {
    var no, w := |kinds|, Encode([kind]);
    var at := IGet(no);
    var img' := Patch(img, at, w);
    forall m | 0 <= m < INODE_NUM
      ensures InodeIs(img', m, KindOf(kinds + [kind], m))
    {
      assert InodeIs(img, m, KindOf(kinds, m));
      if m == no {
        InodeRetyped(img, no, kind);
      } else {
        InodesDiffer(no, m);
        InodeKept(img, at, w, m, KindOf(kinds, m));
      }
    }
    forall b | 0 <= b < BLK_NUM
      ensures Marked(img', b) <==> b < blocks
    {
      assert Marked(img, b) <==> b < blocks;
      InodesApart(no);
      MarkKept(img, at, w, b);
    }
  }

  lemma SuperKept(img: seq<Byte>, s: Super, at: nat, d: seq<Byte>)
    requires |img| == IMG_SIZE && SuperIs(img, s) && BLK_SIZE <= at && at + |d| <= IMG_SIZE
    ensures SuperIs(Patch(img, at, d), s)
  {
    PatchReads(img, at, d, BGet(SUPER_BLK), BGet(SUPER_BLK) + 16);
  }

  /** What changes when the next block is given out. */
  lemma BlockTaken(img: seq<Byte>, kinds: seq<Word>, blocks: nat, x: Byte)
    requires Holding(img, kinds, blocks) && blocks < BLK_NUM
    requires x as int == SetBit(img[BGet(BITMAP_BLK) + blocks / 8] as int, blocks % 8)
    ensures Holding(img[BGet(BITMAP_BLK) + blocks / 8 := x], kinds, blocks + 1)
  {
    var at := BGet(BITMAP_BLK) + blocks / 8;
    var img' := img[at := x];
    forall m | 0 <= m < INODE_NUM
      ensures InodeIs(img', m, KindOf(kinds, m))
    {
      assert InodeIs(img, m, KindOf(kinds, m));
      InodesApart(m);
      SameSlice(img', img, IGet(m), IGet(m) + INODE_SIZE);
    }
    forall b | 0 <= b < BLK_NUM
      ensures Marked(img', b) <==> b < blocks + 1
    {
      assert Marked(img, b) <==> b < blocks;
      if b / 8 == blocks / 8 {
        SetBitBits(img[at] as int, blocks % 8, b % 8);
      }
    }
  }

  lemma OnesByte(k: nat)
    requires k < 4
    ensures ByteOf(0xffff_ffff, k) == 0xff && Ones(8) == 0xff
  {
    assert Ones(4) == 15;
    assert Shifted(0xffff_ffff, 1) == 0xff_ffff && Shifted(0xffff_ffff, 2) == 0xffff && Shifted(0xffff_ffff, 3) == 0xff;
  }

  /** The image before the first inode is taken: zeros, a super block, and 64 blocks in use. */
  lemma StartHolding(img: seq<Byte>)
    requires |img| == IMG_SIZE
    requires forall k :: BGet(BITMAP_BLK) <= k < BGet(BITMAP_BLK) + 8 ==> img[k] == 0xff
    requires forall k :: BGet(BITMAP_BLK) + 8 <= k < IMG_SIZE ==> img[k] == 0
    ensures Holding(img, [0], 64)
  {
    OnesByte(0);
    BlankIsZero();
    forall no | 0 <= no < INODE_NUM
      ensures InodeIs(img, no, KindOf([0], no))
    {
      InodesApart(no);
      assert img[IGet(no)..IGet(no) + INODE_SIZE] == seq(INODE_SIZE, _ => 0);
    }
    forall b | 0 <= b < BLK_NUM
      ensures Marked(img, b) <==> b < 64
    {
      OnesBits(8, b % 8);
      ZeroBits(b % 8);
      assert b / 8 < 8 ==> img[BGet(BITMAP_BLK) + b / 8] == 0xff;
    }
  }

  // ----- building it -----

  class Builder {
    const img: array<Byte>
    var nextBlk: nat
    var nextInode: nat
    var root: Word
    ghost var kinds: seq<Word>

    ghost predicate Valid()
      reads this, img
    {
      && Holding(img[..], kinds, nextBlk) && nextInode == |kinds|
      && SuperIs(img[..], Super(BITMAP_BLK, INODE_START, INODE_NUM, root))
    }

    /** A file of zeros, mapped to memory. */
    constructor ()
      ensures img.Length == IMG_SIZE && (forall k :: 0 <= k < IMG_SIZE ==> img[k] == 0)
      ensures nextBlk == 64 && nextInode == 1 && kinds == [0] && fresh(img)
    {
      img := new Byte[IMG_SIZE](_ => 0);
      nextBlk, nextInode, root, kinds := 64, 1, 0, [0];
    }

    method StoreWord(at: nat, w: Word)
      requires at + 4 <= img.Length
      modifies img
      ensures img[..] == Patch(old(img[..]), at, Encode([w]))
    {
      img[at] := ByteOf(w, 0);
      img[at + 1] := ByteOf(w, 1);
      img[at + 2] := ByteOf(w, 2);
      img[at + 3] := ByteOf(w, 3);
    }

    /** The next inode, or nothing if the program has to give up. */
    method IAlloc(kind: Word) returns (no: Option<nat>)
      requires Valid()
      modifies this, img
      ensures Valid() && nextBlk == old(nextBlk) && root == old(root)
      ensures no == if |old(kinds)| < INODE_NUM then Some(|old(kinds)|) else None
      ensures kinds == if no.Some? then old(kinds) + [kind] else old(kinds)
    {
      if nextInode >= INODE_NUM {
        return None;
      }
      InodeTaken(img[..], kinds, nextBlk, kind);
      SuperKept(img[..], Super(BITMAP_BLK, INODE_START, INODE_NUM, root), IGet(nextInode), Encode([kind]));
      StoreWord(IGet(nextInode), kind);
      kinds := kinds + [kind];
      nextInode := nextInode + 1;
      no := Some(nextInode - 1);
    }

    /** The next data block, or nothing if the program has to give up. */
    method BAlloc() returns (no: Option<nat>)
      requires Valid()
      modifies this, img
      ensures Valid() && kinds == old(kinds) && root == old(root)
      ensures no == if old(nextBlk) < BLK_NUM then Some(old(nextBlk)) else None
      ensures nextBlk == if no.Some? then old(nextBlk) + 1 else old(nextBlk)
      ensures no.Some? ==> !Marked(old(img[..]), no.value) && Marked(img[..], no.value)
    {
      if nextBlk >= BLK_NUM {
        return None;
      }
      ghost var was := img[..];
      var at := BGet(BITMAP_BLK) + nextBlk / 8;
      OnesByte(0);
      SetBitFits(img[at] as int, nextBlk % 8, 8);
      var x := SetBit(img[at] as int, nextBlk % 8) as Byte;
      BlockTaken(was, kinds, nextBlk, x);
      img[at] := x;
      assert img[..] == was[at := img[at]];
      assert img[0..16] == was[0..16];
      nextBlk := nextBlk + 1;
      no := Some(nextBlk - 1);
    }

    /** Super block, bitmap and the inode of the root directory. */
    method InitDisk()
      requires img.Length == IMG_SIZE && forall k :: 0 <= k < IMG_SIZE ==> img[k] == 0
      requires nextBlk == 64 && nextInode == 1 && kinds == [0]
      modifies this, img
      ensures Valid() && kinds == [0, TYPE_DIR] && nextBlk == 64 && root == 1
    {
      StoreSuper();
      root := 0;
      var r := IAlloc(TYPE_DIR);
      ghost var was := img[..];
      StoreWord(BGet(SUPER_BLK) + 12, r.value);
      RootWritten(was, kinds, nextBlk, root, r.value);
      root := r.value;
    }

    method StoreSuper()
      requires img.Length == IMG_SIZE && forall k :: 0 <= k < IMG_SIZE ==> img[k] == 0
      modifies img
      ensures Holding(img[..], [0], 64) && SuperIs(img[..], Super(BITMAP_BLK, INODE_START, INODE_NUM, 0))
    {
      StoreWord(BGet(SUPER_BLK), BITMAP_BLK);
      StoreWord(BGet(SUPER_BLK) + 4, INODE_START);
      StoreWord(BGet(SUPER_BLK) + 8, INODE_NUM);
      ghost var was := img[..];
      SuperStored(old(img[..]), was);
      StoreWord(BGet(BITMAP_BLK), 0xffff_ffff);
      StoreWord(BGet(BITMAP_BLK) + 4, 0xffff_ffff);
      StartStored(was, img[..]);
    }
  }

  lemma SuperStored(zeros: seq<Byte>, img: seq<Byte>)
    requires |zeros| == IMG_SIZE && forall k :: 0 <= k < IMG_SIZE ==> zeros[k] == 0
    requires img == Patch(Patch(Patch(zeros, 0, Encode([BITMAP_BLK])), 4, Encode([INODE_START])), 8, Encode([INODE_NUM]))
    ensures SuperIs(img, Super(BITMAP_BLK, INODE_START, INODE_NUM, 0))
    ensures forall k :: 16 <= k < IMG_SIZE ==> img[k] == 0
  {
    var img1 := Patch(zeros, 0, Encode([BITMAP_BLK]));
    var img2 := Patch(img1, 4, Encode([INODE_START]));
    PatchAt(zeros, 0, Encode([BITMAP_BLK]));
    PatchAt(img1, 4, Encode([INODE_START]));
    PatchAt(img2, 8, Encode([INODE_NUM]));
    forall k | 0 <= k < 16
      ensures img[k] == SuperBytes(Super(BITMAP_BLK, INODE_START, INODE_NUM, 0))[k]
    {
      ZeroByte(k % 4);
    }
    assert img[0..16] == SuperBytes(Super(BITMAP_BLK, INODE_START, INODE_NUM, 0));
  }

  lemma StartStored(was: seq<Byte>, img: seq<Byte>)
    requires |was| == IMG_SIZE && SuperIs(was, Super(BITMAP_BLK, INODE_START, INODE_NUM, 0))
    requires forall k :: 16 <= k < IMG_SIZE ==> was[k] == 0
    requires var w, at := Encode([0xffff_ffff]), BGet(BITMAP_BLK); img == Patch(Patch(was, at, w), at + 4, w)
    ensures Holding(img, [0], 64) && SuperIs(img, Super(BITMAP_BLK, INODE_START, INODE_NUM, 0))
  {
    OnesByte(0);
    OnesByte(1);
    OnesByte(2);
    OnesByte(3);
    assert img[0..16] == was[0..16];
    StartHolding(img);
  }

  lemma RootWritten(img: seq<Byte>, kinds: seq<Word>, blocks: nat, was: Word, root: Word)
    requires Holding(img, kinds, blocks) && SuperIs(img, Super(BITMAP_BLK, INODE_START, INODE_NUM, was))
    ensures var img' := Patch(img, BGet(SUPER_BLK) + 12, Encode([root]));
            Holding(img', kinds, blocks) && SuperIs(img', Super(BITMAP_BLK, INODE_START, INODE_NUM, root))
  {
    var img' := Patch(img, BGet(SUPER_BLK) + 12, Encode([root]));
    forall m | 0 <= m < INODE_NUM
      ensures InodeIs(img', m, KindOf(kinds, m))
    {
      assert InodeIs(img, m, KindOf(kinds, m));
      InodesApart(m);
      InodeKept(img, 12, Encode([root]), m, KindOf(kinds, m));
    }
    forall b | 0 <= b < BLK_NUM
      ensures Marked(img', b) <==> b < blocks
    {
      assert Marked(img, b) <==> b < blocks;
      MarkKept(img, 12, Encode([root]), b);
    }
    RootPatched(img[0..16], was, root);
    PatchInside(img, 12, Encode([root]), 0, 16);
  }

  lemma RootPatched(b: seq<Byte>, was: Word, root: Word)
    requires b == SuperBytes(Super(BITMAP_BLK, INODE_START, INODE_NUM, was))
    ensures Patch(b, 12, Encode([root])) == SuperBytes(Super(BITMAP_BLK, INODE_START, INODE_NUM, root))
  {
  }

  /** What the kernel finds on a disk with a finished image: the super block, and each inode
      with its kind. */
  lemma KernelFindsSuper(img: seq<Byte>, root: Word, disk: seq<Block>)
    requires |img| == IMG_SIZE && SuperIs(img, Super(BITMAP_BLK, INODE_START, INODE_NUM, root))
    requires |disk| == BLK_NUM && Placed(img, disk)
    ensures SuperFrom(disk[SUPER_BLOCK][0..16]) == Super(BITMAP_BLK, INODE_START, INODE_NUM, root)
  {
    SuperRoundTrip(Super(BITMAP_BLK, INODE_START, INODE_NUM, root));
    assert disk[SUPER_BLOCK] == img[BGet(SUPER_BLK)..BGet(SUPER_BLK) + BLK_SIZE];
    SliceSlice(img, 0, BLK_SIZE, 0, 16);
  }

  lemma KernelFindsInode(img: seq<Byte>, kinds: seq<Word>, blocks: nat, disk: seq<Block>, no: nat)
    requires Holding(img, kinds, blocks) && |disk| == BLK_NUM && Placed(img, disk) && no < INODE_NUM
    ensures no < Capacity(INODE_START) && InodeAt(disk, INODE_START, no) == Blank(KindOf(kinds, no))
  {
    SameInode(img, disk, no);
    assert InodeIs(img, no, KindOf(kinds, no));
    InodeRoundTrip(Blank(KindOf(kinds, no)), InodeBytes(Blank(0)));
  }
}
