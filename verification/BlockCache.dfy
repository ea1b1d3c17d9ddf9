/** The write-through block cache: 16 slots, block no always in slot no % 16. */
module BlockCache {
  import opened Disk
  import opened Options

  const BLK_SIZE := 4096
  const BLK_SECTS := 8
  const BLK_NUM := 32768
  const BCACHE_NUM := 16

  type Block = s: seq<Byte> | |s| == BLK_SIZE witness seq(BLK_SIZE, _ => 0)

  // ----- the disk as a plain array of blocks -----

  function BlockOf(sects: seq<Sector>, no: nat): (b: Block)
    requires |sects| == BLK_NUM * BLK_SECTS && no < BLK_NUM
  {
    Span(sects, no * BLK_SECTS, BLK_SECTS)
  }

  function Blocks(sects: seq<Sector>): (d: seq<Block>)
    requires |sects| == BLK_NUM * BLK_SECTS
    ensures |d| == BLK_NUM
  {
    seq(BLK_NUM, no requires 0 <= no < BLK_NUM => BlockOf(sects, no))
  }

  datatype Access = ReadAt(no: nat, off: nat, size: nat) | WriteAt(no: nat, off: nat, data: seq<Byte>) | ZeroAll(no: nat)

  predicate InRange(a: Access) {
    a.no < BLK_NUM && (a.ReadAt? ==> a.off + a.size <= BLK_SIZE) && (a.WriteAt? ==> a.off + |a.data| <= BLK_SIZE)
  }

  function Zeros(): (b: Block)
    ensures forall k :: 0 <= k < 4096 ==> b[k] == 0
  {
    seq(BLK_SIZE, _ => 0)
  }

  function After(disk: seq<Block>, a: Access): (d: seq<Block>)
    requires |disk| == BLK_NUM && InRange(a)
    ensures |d| == BLK_NUM
  {
    match a
    case ReadAt(_, _, _) => disk
    case WriteAt(no, off, data) => disk[no := Patch(disk[no], off, data)]
    case ZeroAll(no) => disk[no := Zeros()]
  }

  function Answer(disk: seq<Block>, a: Access): seq<Byte>
    requires |disk| == BLK_NUM && InRange(a)
  {
    if a.ReadAt? then disk[a.no][a.off..a.off + a.size] else []
  }

  type InRangeAccess = a: Access | InRange(a) witness ZeroAll(0)

  function AfterAll(disk: seq<Block>, accesses: seq<InRangeAccess>): (d: seq<Block>)
    requires |disk| == BLK_NUM
    ensures |d| == BLK_NUM
  {
    if accesses == [] then disk
    else After(AfterAll(disk, accesses[..|accesses| - 1]), accesses[|accesses| - 1])
  }

  function Answers(disk: seq<Block>, accesses: seq<InRangeAccess>): (dsts: seq<seq<Byte>>)
    requires |disk| == BLK_NUM
    ensures |dsts| == |accesses|
  {
    if accesses == [] then []
    else
      var before := accesses[..|accesses| - 1];
      Answers(disk, before) + [Answer(AfterAll(disk, before), accesses[|accesses| - 1])]
  }

  /** What some accesses last put at byte k of block no. */
  function LastPut(accesses: seq<InRangeAccess>, no: nat, k: nat): Option<Byte> {
    if accesses == [] then None
    else
      var before, last := accesses[..|accesses| - 1], accesses[|accesses| - 1];
      match last
      case WriteAt(n, off, data) =>
        if n == no && off <= k < off + |data| then Some(data[k - off]) else LastPut(before, no, k)
      case ZeroAll(n) => if n == no then Some(0) else LastPut(before, no, k)
      case ReadAt(_, _, _) => LastPut(before, no, k)
  }

  lemma {:induction false} LastPutStands(disk: seq<Block>, accesses: seq<InRangeAccess>, no: nat, k: nat)
    requires |disk| == BLK_NUM && no < BLK_NUM && k < BLK_SIZE
    ensures AfterAll(disk, accesses)[no][k]
         == var last := LastPut(accesses, no, k); if last.Some? then last.value else disk[no][k]
  {
    if accesses != [] {
      var before, last := accesses[..|accesses| - 1], accesses[|accesses| - 1];
      LastPutStands(disk, before, no, k);
      if last.WriteAt? {
        PatchAt(AfterAll(disk, before)[last.no], last.off, last.data);
      }
    }
  }

  /** Every byte that a run reads is the one last put there: the data of the last write over it,
      zero if the block was cleared later, or what the disk held at the start. */
  lemma {:induction false} ReadsLastPut(disk: seq<Block>, accesses: seq<InRangeAccess>, i: nat, k: nat)
    requires |disk| == BLK_NUM && i < |accesses| && accesses[i].ReadAt? && k < accesses[i].size
    ensures |Answers(disk, accesses)[i]| == accesses[i].size
    ensures var no, at := accesses[i].no, accesses[i].off + k;
            var last := LastPut(accesses[..i], no, at);
            Answers(disk, accesses)[i][k] == if last.Some? then last.value else disk[no][at]
  {
    var before := accesses[..|accesses| - 1];
    if i < |before| {
      ReadsLastPut(disk, before, i, k);
      assert before[..i] == accesses[..i];
    } else {
      LastPutStands(disk, before, accesses[i].no, accesses[i].off + k);
    }
  }

  // ----- the cache as a value -----

  datatype Tag = Tag(valid: bool, no: int)

  predicate Holds(tag: Tag, i: nat, mem: seq<Byte>, sects: seq<Sector>)
    requires i < BCACHE_NUM && |mem| == BCACHE_NUM * BLK_SIZE && |sects| == BLK_NUM * BLK_SECTS
  {
    tag.valid ==> 0 <= tag.no < BLK_NUM && tag.no % BCACHE_NUM == i && SlotOf(mem, i) == BlockOf(sects, tag.no)
  }

  function SlotOf(mem: seq<Byte>, i: nat): Block
    requires i < BCACHE_NUM && |mem| == BCACHE_NUM * BLK_SIZE
  {
    mem[i * BLK_SIZE..(i + 1) * BLK_SIZE]
  }

  predicate Coherent(tags: seq<Tag>, mem: seq<Byte>, sects: seq<Sector>) {
    && |tags| == BCACHE_NUM && |mem| == BCACHE_NUM * BLK_SIZE && |sects| == BLK_NUM * BLK_SECTS
    && forall i :: 0 <= i < BCACHE_NUM ==> Holds(tags[i], i, mem, sects)
  }

  lemma SlotPatched(mem: seq<Byte>, i: nat, off: nat, d: seq<Byte>, j: nat)
    requires |mem| == BCACHE_NUM * BLK_SIZE && i < BCACHE_NUM && j < BCACHE_NUM && off + |d| <= BLK_SIZE
    ensures SlotOf(Patch(mem, i * BLK_SIZE + off, d), j) ==
            if j == i then Patch(SlotOf(mem, i), off, d) else SlotOf(mem, j)
  {
    var at, lo, hi := i * BLK_SIZE + off, j * BLK_SIZE, (j + 1) * BLK_SIZE;
    if j == i {
      assert lo <= at && at + |d| <= hi && at - lo == off;
      PatchInside(mem, at, d, lo, hi);
    } else {
      assert hi <= at || at + |d| <= lo;
      PatchReads(mem, at, d, lo, hi);
    }
  }

  lemma SliceSlice<T>(s: seq<T>, a: nat, b: nat, c: nat, d: nat)
    requires a <= b <= |s| && c <= d <= b - a
    ensures s[a..b][c..d] == s[a + c..a + d]
  {
    forall k | 0 <= k < d - c
      ensures s[a..b][c..d][k] == s[a + c..a + d][k]
    {
      assert s[a..b][c + k] == s[a + c + k];
    }
  }

  /** A slot filled from the disk. */
  lemma Filled(tags: seq<Tag>, mem: seq<Byte>, sects: seq<Sector>, no: nat)
    requires Coherent(tags, mem, sects) && no < BLK_NUM
    ensures var i := no % BCACHE_NUM;
            var loaded := Patch(mem, i * BLK_SIZE, BlockOf(sects, no));
            Coherent(tags[i := Tag(true, no)], loaded, sects) && SlotOf(loaded, i) == BlockOf(sects, no)
  {
    var i, block := no % BCACHE_NUM, BlockOf(sects, no);
    var marks := tags[i := Tag(true, no)];
    assert Patch(SlotOf(mem, i), 0, block) == block;
    SlotPatched(mem, i, 0, block, i);
    forall j | 0 <= j < BCACHE_NUM
      ensures Holds(marks[j], j, Patch(mem, i * BLK_SIZE, block), sects)
    {
      assert Holds(tags[j], j, mem, sects);
      SlotPatched(mem, i, 0, block, j);
    }
  }

  lemma OtherBlocks(sects: seq<Sector>, no: nat, sects': seq<Sector>, b: nat)
    requires |sects'| == |sects| == BLK_NUM * BLK_SECTS && no < BLK_NUM && b < BLK_NUM && b != no
    requires forall i :: 0 <= i < |sects| && !(no * BLK_SECTS <= i < (no + 1) * BLK_SECTS) ==> sects'[i] == sects[i]
    ensures BlockOf(sects', b) == BlockOf(sects, b)
  {
    SpanFrame(sects, sects', b * BLK_SECTS, BLK_SECTS);
  }

  lemma BlocksWritten(sects: seq<Sector>, no: nat, sects': seq<Sector>)
    requires |sects'| == |sects| == BLK_NUM * BLK_SECTS && no < BLK_NUM
    requires forall i :: 0 <= i < |sects| && !(no * BLK_SECTS <= i < (no + 1) * BLK_SECTS) ==> sects'[i] == sects[i]
    ensures Blocks(sects') == Blocks(sects)[no := BlockOf(sects', no)]
  {
    var s, t := Blocks(sects'), Blocks(sects)[no := BlockOf(sects', no)];
    forall b | 0 <= b < BLK_NUM
      ensures s[b] == t[b]
    {
      if b != no {
        OtherBlocks(sects, no, sects', b);
      }
    }
  }

  /** A slot changed in memory and written through. */
  lemma WrittenThrough(tags: seq<Tag>, mem: seq<Byte>, sects: seq<Sector>, no: nat, off: nat, d: seq<Byte>,
                       sects': seq<Sector>)
    requires Coherent(tags, mem, sects) && no < BLK_NUM && off + |d| <= BLK_SIZE
    requires tags[no % BCACHE_NUM] == Tag(true, no) && |sects'| == |sects|
    requires BlockOf(sects', no) == Patch(BlockOf(sects, no), off, d)
    requires forall i :: 0 <= i < |sects| && !(no * BLK_SECTS <= i < (no + 1) * BLK_SECTS) ==> sects'[i] == sects[i]
    ensures Coherent(tags, Patch(mem, no % BCACHE_NUM * BLK_SIZE + off, d), sects')
    ensures Blocks(sects') == Blocks(sects)[no := Patch(BlockOf(sects, no), off, d)]
  {
    var i := no % BCACHE_NUM;
    BlocksWritten(sects, no, sects');
    forall j | 0 <= j < BCACHE_NUM
      ensures Holds(tags[j], j, Patch(mem, i * BLK_SIZE + off, d), sects')
    {
      assert Holds(tags[j], j, mem, sects);
      SlotPatched(mem, i, off, d, j);
      if tags[j].valid && tags[j].no != no {
        OtherBlocks(sects, no, sects', tags[j].no);
      }
    }
  }

  lemma StoredThrough(tags: seq<Tag>, mem: seq<Byte>, sects: seq<Sector>, no: nat, off: nat, d: seq<Byte>,
                      mem': seq<Byte>, sects': seq<Sector>)
    requires Coherent(tags, mem, sects) && no < BLK_NUM && off + |d| <= BLK_SIZE
    requires tags[no % BCACHE_NUM] == Tag(true, no) && |sects'| == |sects|
    requires mem' == Patch(mem, no % BCACHE_NUM * BLK_SIZE + off, d) && BlockOf(sects', no) == SlotOf(mem', no % BCACHE_NUM)
    requires forall i :: 0 <= i < |sects| && !(no * BLK_SECTS <= i < (no + 1) * BLK_SECTS) ==> sects'[i] == sects[i]
    ensures Coherent(tags, mem', sects') && Blocks(sects') == After(Blocks(sects), WriteAt(no, off, d))
  {
    var i := no % BCACHE_NUM;
    assert Holds(tags[i], i, mem, sects);
    SlotPatched(mem, i, off, d, i);
    WrittenThrough(tags, mem, sects, no, off, d, sects');
  }

  lemma BlockSectors(no: nat)
    ensures no * BLK_SIZE / SECTSIZE == no * BLK_SECTS && Sectors(BLK_SIZE) == BLK_SECTS
  {
  }

  // ----- the cache -----

  class Cache {
    const drive: Drive
    const tags: array<Tag>
    const mem: array<Byte>

    ghost predicate Valid()
      reads tags, mem, drive.sects
    {
      Coherent(tags[..], mem[..], drive.sects[..])
    }

    /** The blocks as a reader sees them. */
    ghost function Contents(): seq<Block>
      requires drive.sects.Length == BLK_NUM * BLK_SECTS
      reads drive.sects
    {
      Blocks(drive.sects[..])
    }

    constructor (drive: Drive)
      requires drive.sects.Length == BLK_NUM * BLK_SECTS
      ensures Valid() && this.drive == drive && fresh(tags) && fresh(mem)
    {
      this.drive := drive;
      tags := new Tag[BCACHE_NUM](_ => Tag(false, 0));
      mem := new Byte[BCACHE_NUM * BLK_SIZE](_ => 0);
    }

    method GetCache(no: nat) returns (i: nat)
      requires Valid() && no < BLK_NUM
      modifies tags, mem
      ensures Valid() && i == no % BCACHE_NUM && tags[i] == Tag(true, no)
      ensures SlotOf(mem[..], i) == BlockOf(drive.sects[..], no)
      ensures drive.sects[..] == old(drive.sects[..])
    {
      i := no % BCACHE_NUM;
      assert Holds(tags[i], i, mem[..], drive.sects[..]);
      if !tags[i].valid || tags[i].no != no {
        ghost var was, image, marks := mem[..], drive.sects[..], tags[..];
        Filled(marks, was, image, no);
        Fetch(i, no);
        assert drive.sects[..] == image;
      }
    }

    method Fetch(i: nat, no: nat)
      requires Valid() && no < BLK_NUM && i == no % BCACHE_NUM
      modifies tags, mem
      ensures tags[..] == old(tags[..])[i := Tag(true, no)]
      ensures mem[..] == Patch(old(mem[..]), i * BLK_SIZE, BlockOf(drive.sects[..], no))
    {
      BlockSectors(no);
      drive.CopyFrom(mem, i * BLK_SIZE, BLK_SIZE, no * BLK_SIZE);
      tags[i] := Tag(true, no);
    }

    method BRead(size: nat, no: nat, off: nat) returns (dst: seq<Byte>)
      requires Valid() && InRange(ReadAt(no, off, size))
      modifies tags, mem
      ensures Valid() && Contents() == old(Contents())
      ensures dst == Answer(Contents(), ReadAt(no, off, size))
    {
      var i := GetCache(no);
      dst := mem[i * BLK_SIZE + off..i * BLK_SIZE + off + size];
      SliceSlice(mem[..], i * BLK_SIZE, (i + 1) * BLK_SIZE, off, off + size);
    }

    /** Changes bytes of a slot that holds block no, and writes the slot through. */
    method Store(i: nat, no: nat, off: nat, src: seq<Byte>)
      requires Valid() && no < BLK_NUM && off + |src| <= BLK_SIZE
      requires i == no % BCACHE_NUM && tags[i] == Tag(true, no)
      modifies mem, drive.sects
      ensures Valid() && Contents() == After(old(Contents()), WriteAt(no, off, src))
    {
      ghost var was, image := mem[..], drive.sects[..];
      WriteSlot(i, no, off, src);
      StoredThrough(tags[..], was, image, no, off, src, mem[..], drive.sects[..]);
    }

    method WriteSlot(i: nat, no: nat, off: nat, src: seq<Byte>)
      requires mem.Length == BCACHE_NUM * BLK_SIZE && drive.sects.Length == BLK_NUM * BLK_SECTS
      requires i < BCACHE_NUM && no < BLK_NUM && off + |src| <= BLK_SIZE
      modifies mem, drive.sects
      ensures mem[..] == Patch(old(mem[..]), i * BLK_SIZE + off, src)
      ensures BlockOf(drive.sects[..], no) == SlotOf(mem[..], i)
      ensures forall j :: 0 <= j < drive.sects.Length && !(no * BLK_SECTS <= j < (no + 1) * BLK_SECTS) ==>
                drive.sects[j] == old(drive.sects[j])
    {
      CopyIn(i * BLK_SIZE + off, src);
      BlockSectors(no);
      drive.CopyTo(mem, i * BLK_SIZE, BLK_SIZE, no * BLK_SIZE);
    }

    method CopyIn(at: nat, src: seq<Byte>)
      requires at + |src| <= mem.Length
      modifies mem
      ensures mem[..] == Patch(old(mem[..]), at, src)
    {
      forall k | 0 <= k < |src| {
        mem[at + k] := src[k];
      }
    }

    method BWrite(src: seq<Byte>, no: nat, off: nat)
      requires Valid() && InRange(WriteAt(no, off, src))
      modifies tags, mem, drive.sects
      ensures Valid() && Contents() == After(old(Contents()), WriteAt(no, off, src))
    {
      var i := GetCache(no);
      Store(i, no, off, src);
    }

    method BZero(no: nat)
      requires Valid() && InRange(ZeroAll(no))
      modifies tags, mem, drive.sects
      ensures Valid() && Contents() == After(old(Contents()), ZeroAll(no))
      ensures forall k :: 0 <= k < 4096 ==> Contents()[no][k] == 0
    {
      var i := GetCache(no);
      assert Patch(Contents()[no], 0, Zeros()) == Zeros();
      Store(i, no, 0, Zeros());
    }

    method Serve(a: Access) returns (dst: seq<Byte>)
      requires Valid() && InRange(a)
      modifies tags, mem, drive.sects
      ensures Valid() && Contents() == After(old(Contents()), a) && dst == Answer(old(Contents()), a)
    {
      dst := [];
      match a
      case ReadAt(no, off, size) => dst := BRead(size, no, off);
      case WriteAt(no, off, data) => BWrite(data, no, off);
      case ZeroAll(no) => BZero(no);
    }

    /** Every run of accesses answers, and leaves on the disk, what a plain array of blocks
        would: nobody can tell that there is a cache. */
    method ServeAll(accesses: seq<InRangeAccess>) returns (dsts: seq<seq<Byte>>)
      requires Valid()
      modifies tags, mem, drive.sects
      ensures Valid() && Contents() == AfterAll(old(Contents()), accesses)
      ensures dsts == Answers(old(Contents()), accesses)
    {
      dsts := [];
      ghost var disk := Contents();
      assert accesses[..0] == [];
      for k := 0 to |accesses|
        invariant Valid() && Contents() == AfterAll(disk, accesses[..k]) && dsts == Answers(disk, accesses[..k])
      {
        assert accesses[..k + 1][..k] == accesses[..k];
        var dst := Serve(accesses[k]);
        dsts := dsts + [dst];
      }
      assert accesses[..|accesses|] == accesses;
    }
  }
}
