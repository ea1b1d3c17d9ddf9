/** The simple file system of the kernel, which reads the image that genuser builds. */
module EasyFs {
  import opened Disk
  import opened Options
  import opened UserImage
  import opened Words

  const MAX_DEV := 16
  const MAX_INODE := MAX_FILE + MAX_DEV

  datatype Kind = FileKind | DevKind

  datatype Inode = Inode(valid: bool, kind: Kind, dev: int, entry: DiskEntry)

  // ----- the image on the disk -----

  predicate SectorPlaced(image: seq<Byte>, sects: seq<Sector>, k: nat) {
    && (k + 1) * SECTSIZE <= |image| && IMAGE_SECT + k < |sects|
    && sects[IMAGE_SECT + k] == image[k * SECTSIZE..(k + 1) * SECTSIZE]
  }

  /** The disk holds the sectors of the image from sector 256 on. */
  predicate Placed(image: seq<Byte>, sects: seq<Sector>) {
    && |image| % SECTSIZE == 0 && IMAGE_SECT + |image| / SECTSIZE <= |sects|
    && forall k :: 0 <= k < |image| / SECTSIZE ==> SectorPlaced(image, sects, k)
  }

  lemma {:induction false} SpanPlaced(image: seq<Byte>, sects: seq<Sector>, a: nat, n: nat)
    requires Placed(image, sects) && (a + n) * SECTSIZE <= |image|
    ensures Span(sects, IMAGE_SECT + a, n) == image[a * SECTSIZE..(a + n) * SECTSIZE]
  {
    if n > 0 {
      SpanPlaced(image, sects, a, n - 1);
      assert SectorPlaced(image, sects, a + n - 1);
      var lo, hi := a * SECTSIZE, (a + n) * SECTSIZE;
      assert image[lo..hi] == image[lo..hi - SECTSIZE] + image[hi - SECTSIZE..hi];
    }
  }

  /** The bytes of a file, as its inode describes it. */
  function Contents(e: DiskEntry, sects: seq<Sector>): (d: seq<Byte>)
    requires e.start + Sectors(e.length) <= |sects|
    ensures |d| == e.length
  {
    Span(sects, e.start, Sectors(e.length))[..e.length]
  }

  lemma SliceBehind<T>(a: seq<T>, b: seq<T>, lo: nat, hi: nat)
    requires lo <= hi <= |b|
    ensures (a + b)[|a| + lo..|a| + hi] == b[lo..hi]
  {
  }

  /** File i takes n sectors from sector a of the image on. */
  lemma FileInImage(image: seq<Byte>, table: Sector, files: seq<File>, i: nat, a: nat, n: nat)
    requires image == table + Body(files, |files|) && i < |files|
    requires IMAGE_SECT + a == StartOf(files, i) && n == Sectors(|files[i].data|)
    ensures (a + n) * SECTSIZE <= |image| && image[a * SECTSIZE..(a + n) * SECTSIZE] == Padded(files[i].data)
  {
    BodySlice(files, |files|, i);
    BehindTable(table, Body(files, |files|), Padded(files[i].data), a, n);
  }

  lemma BehindTable(table: Sector, body: seq<Byte>, data: seq<Byte>, a: nat, n: nat)
    requires a >= 1 && |data| == n * SECTSIZE && (a - 1) * SECTSIZE + |data| <= |body|
    requires body[(a - 1) * SECTSIZE..(a - 1) * SECTSIZE + |data|] == data
    ensures (a + n) * SECTSIZE <= |table + body| && (table + body)[a * SECTSIZE..(a + n) * SECTSIZE] == data
  {
    SliceBehind(table, body, (a - 1) * SECTSIZE, (a - 1) * SECTSIZE + |data|);
  }

  lemma ImagePlaced(image: seq<Byte>, sects: seq<Sector>, a: nat, n: nat, data: seq<Byte>)
    requires Placed(image, sects) && n == Sectors(|data|) && (a + n) * SECTSIZE <= |image|
    requires image[a * SECTSIZE..(a + n) * SECTSIZE] == Padded(data)
    ensures IMAGE_SECT + a + n <= |sects| && Span(sects, IMAGE_SECT + a, n)[..|data|] == data
  {
    SpanPlaced(image, sects, a, n);
    assert Padded(data)[..|data|] == data;
  }

  /** Every file is found on the disk under its inode. */
  lemma FilePlaced(files: seq<File>, sects: seq<Sector>, i: nat)
    requires Storable(files) && Fits(files) && Placed(Image(files), sects) && i < |files|
    ensures var e := EntryOf(files, i);
            e.start + Sectors(e.length) <= |sects| && Contents(e, sects) == files[i].data
  {
    var image, a, n := Image(files), StartOf(files, i) - IMAGE_SECT, Sectors(|files[i].data|);
    FileInImage(image, TableBytes(Entries(files)), files, i, a, n);
    ImagePlaced(image, sects, a, n, files[i].data);
  }

  // ----- what the operations answer -----

  predicate Named(t: Inode, path: seq<Byte>) {
    t.valid && CString(t.entry.name) == path
  }

  predicate FromDisk(t: Inode, e: DiskEntry) {
    t.valid && t.kind == FileKind && t.entry == e
  }

  /** The first valid inode with the name. */
  function Find(table: seq<Inode>, path: seq<Byte>): (r: Option<nat>)
    ensures r.Some? ==> r.value < |table| && Named(table[r.value], path)
    ensures forall i :: 0 <= i < (if r.Some? then r.value else |table|) ==> !Named(table[i], path)
  {
    if table == [] then None
    else
      var r := Find(table[..|table| - 1], path);
      if r.Some? then r
      else if Named(table[|table| - 1], path) then Some(|table| - 1)
      else None
  }

  /** The bytes from off on, at most len of them. */
  function Part(d: seq<Byte>, off: nat, len: nat): (r: seq<Byte>)
    ensures |r| <= len && (|r| == len || off + |r| >= |d|) && (r != [] ==> off + |r| <= |d|)
    ensures forall k :: 0 <= k < |r| ==> r[k] == d[off + k]
  {
    if off >= |d| then [] else d[off..if off + len < |d| then off + len else |d|]
  }

  // ----- the file system -----

  class FileSystem {
    const drive: Drive
    const inodes: array<Inode>

    constructor (drive: Drive)
      ensures this.drive == drive && fresh(inodes) && inodes.Length == MAX_INODE
      ensures forall i :: 0 <= i < MAX_INODE ==> !inodes[i].valid
    {
      this.drive := drive;
      inodes := new Inode[MAX_INODE](_ => Inode(false, FileKind, 0, Entry(0, 0, Field([]))));
    }

    method InitFs()
      requires inodes.Length == MAX_INODE && IMAGE_SECT < drive.sects.Length
      modifies inodes
      ensures forall i :: 0 <= i < MAX_FILE ==> FromDisk(inodes[i], TableOf(drive.sects[IMAGE_SECT])[i])
      ensures forall i :: MAX_FILE <= i < MAX_INODE ==> inodes[i] == old(inodes[i])
    {
      var mem := new Byte[SECTSIZE](_ => 0);
      drive.ReadSector(mem, 0, IMAGE_SECT);
      assert mem[..] == drive.sects[IMAGE_SECT];
      var buf := TableOf(mem[..]);
      Fill(buf);
    }

    method Fill(buf: seq<DiskEntry>)
      requires |buf| == MAX_FILE && inodes.Length == MAX_INODE
      modifies inodes
      ensures forall i :: 0 <= i < MAX_FILE ==> FromDisk(inodes[i], buf[i])
      ensures forall i :: MAX_FILE <= i < MAX_INODE ==> inodes[i] == old(inodes[i])
    {
      for i := 0 to MAX_FILE
        invariant forall j :: 0 <= j < i ==> FromDisk(inodes[j], buf[j])
        invariant forall j :: i <= j < MAX_INODE ==> inodes[j] == old(inodes[j])
      {
        inodes[i] := Inode(true, FileKind, inodes[i].dev, buf[i]);
      }
    }

    method IAddDev(name: seq<Byte>, id: nat)
      requires inodes.Length == MAX_INODE && id < MAX_DEV && |name| <= MAX_NAME
      modifies inodes
      ensures inodes[..] == old(inodes[..])[MAX_FILE + id := inodes[MAX_FILE + id]]
      ensures var n := inodes[MAX_FILE + id];
              n.valid && n.kind == DevKind && n.dev == id && (0 !in name ==> CString(n.entry.name) == name)
    {
      var n := inodes[MAX_FILE + id];
      var rest := n.entry.name[|name| + 1..];
      inodes[MAX_FILE + id] := Inode(true, DevKind, id, n.entry.(name := name + [0] + rest));
      if 0 !in name {
        CStringOf(name, [0] + rest);
        assert name + [0] + rest == name + ([0] + rest);
      }
    }

    method IOpen(path: seq<Byte>) returns (r: Option<nat>)
      ensures r == Find(inodes[..], path)
    {
      for i := 0 to inodes.Length
        invariant Find(inodes[..i], path) == None
      {
        assert inodes[..i + 1][..i] == inodes[..i];
        if Named(inodes[i], path) {
          FindPrefix(inodes[..], i + 1, path);
          return Some(i);
        }
      }
      assert inodes[..inodes.Length] == inodes[..];
      r := None;
    }

    /** Fills buf from at on. The sector last read is kept in dbuf. */
    method IRead(e: DiskEntry, off: nat, buf: array<Byte>, at: nat, len: nat) returns (i: nat)
      requires e.start + Sectors(e.length) <= drive.sects.Length
      requires at + |Part(Contents(e, drive.sects[..]), off, len)| <= buf.Length
      modifies buf
      ensures i == |Part(Contents(e, drive.sects[..]), off, len)|
      ensures buf[..] == Patch(old(buf[..]), at, Part(Contents(e, drive.sects[..]), off, len))
    {
      i := ReadLoop(e, off, buf, at, len, Contents(e, drive.sects[..]));
    }

    method ReadLoop(e: DiskEntry, off: nat, buf: array<Byte>, at: nat, len: nat, ghost d: seq<Byte>) returns (i: nat)
      requires Holds(drive.sects[..], e, d) && at + |Part(d, off, len)| <= buf.Length
      modifies buf
      ensures i == |Part(d, off, len)| && buf[..] == Patch(old(buf[..]), at, Part(d, off, len))
    {
      ghost var was := buf[..];
      var dbuf := new Byte[SECTSIZE](_ => 0);
      CopiedNone(d, off, was, at);
      i := CopyBytes(dbuf, e, off, buf, at, len, d, was);
      CopiedAll(d, off, i, len, was, at, buf[..]);
    }

    method CopyBytes(dbuf: array<Byte>, e: DiskEntry, off: nat, buf: array<Byte>, at: nat, len: nat,
                     ghost d: seq<Byte>, ghost was: seq<Byte>)
      returns (i: nat)
      requires Holds(drive.sects[..], e, d) && buf != dbuf && dbuf.Length == SECTSIZE
      requires at + |Part(d, off, len)| <= |was| && Copied(d, off, 0, was, at, buf[..])
      modifies dbuf, buf
      ensures Copied(d, off, i, was, at, buf[..]) && i <= len && (i == len || off + i >= |d|)
    {
      var curr, pos := -1, off;
      i := 0;
      while i < len && pos < e.length
        invariant i <= len && pos == off + i && Copied(d, off, i, was, at, buf[..])
        invariant Holds(drive.sects[..], e, d) && Cached(drive.sects[..], e, curr, dbuf[..])
      {
        curr := ReadByte(dbuf, curr, e, pos, buf, at, d, off, i, len, was);
        i, pos := i + 1, pos + 1;
      }
    }

    /** Copies byte i of the part asked for. */
    method ReadByte(dbuf: array<Byte>, curr: int, e: DiskEntry, pos: nat, buf: array<Byte>, at: nat,
                    ghost d: seq<Byte>, ghost off: nat, i: nat, ghost len: nat, ghost was: seq<Byte>)
      returns (now: int)
      requires Holds(drive.sects[..], e, d) && pos == off + i < |d| && buf != dbuf
      requires Cached(drive.sects[..], e, curr, dbuf[..])
      requires i < len && at + |Part(d, off, len)| <= |was| && Copied(d, off, i, was, at, buf[..])
      modifies dbuf, buf
      ensures Holds(drive.sects[..], e, d) && Cached(drive.sects[..], e, now, dbuf[..])
      ensures Copied(d, off, i + 1, was, at, buf[..])
    {
      now := Load(dbuf, curr, e, pos, d);
      PutByte(buf, at, dbuf[pos % SECTSIZE], d, off, i, len, was);
    }

    method PutByte(buf: array<Byte>, at: nat, c: Byte, ghost d: seq<Byte>, ghost off: nat, i: nat, ghost len: nat,
                   ghost was: seq<Byte>)
      requires i < len && off + i < |d| && c == d[off + i]
      requires at + |Part(d, off, len)| <= |was| && Copied(d, off, i, was, at, buf[..])
      modifies buf
      ensures Copied(d, off, i + 1, was, at, buf[..])
    {
      ghost var before := buf[..];
      CopiedNext(d, off, i, len, was, at, before);
      buf[at + i] := c;
      assert buf[..] == before[at + i := c];
    }

    /** Reads the sector with position pos, unless it is the one in dbuf. */
    method Load(dbuf: array<Byte>, curr: int, e: DiskEntry, pos: nat, ghost d: seq<Byte>) returns (now: int)
      requires Holds(drive.sects[..], e, d) && pos < |d|
      requires Cached(drive.sects[..], e, curr, dbuf[..])
      modifies dbuf
      ensures Cached(drive.sects[..], e, now, dbuf[..]) && dbuf[..][pos % SECTSIZE] == d[pos]
    {
      now := curr;
      if curr != pos / SECTSIZE {
        drive.ReadSector(dbuf, 0, e.start + pos / SECTSIZE);
        now := pos / SECTSIZE;
      }
      SpanAt(drive.sects[..], e.start, Sectors(e.length), pos);
    }
  }

  /** d are the bytes of the file. */
  predicate Holds(sects: seq<Sector>, e: DiskEntry, d: seq<Byte>) {
    |d| == e.length && e.start + Sectors(e.length) <= |sects| && d == Contents(e, sects)
  }

  /** dbuf holds the sector of the file with number curr, unless curr is -1. */
  predicate Cached(sects: seq<Sector>, e: DiskEntry, curr: int, dbuf: seq<Byte>) {
    |dbuf| == SECTSIZE && (curr != -1 ==> 0 <= curr && e.start + curr < |sects| && dbuf == sects[e.start + curr])
  }

  /** The first i bytes of d from off on stand in now, at its position at. */
  predicate Copied(d: seq<Byte>, off: nat, i: nat, was: seq<Byte>, at: nat, now: seq<Byte>) {
    i == |Part(d, off, i)| && at + i <= |was| && now == Patch(was, at, Part(d, off, i))
  }

  lemma CopiedNone(d: seq<Byte>, off: nat, was: seq<Byte>, at: nat)
    requires at <= |was|
    ensures Copied(d, off, 0, was, at, was)
  {
    assert Part(d, off, 0) == [] && Patch(was, at, []) == was;
  }

  lemma CopiedNext(d: seq<Byte>, off: nat, i: nat, len: nat, was: seq<Byte>, at: nat, now: seq<Byte>)
    requires off + i < |d| && i < len && at + |Part(d, off, len)| <= |was| && Copied(d, off, i, was, at, now)
    ensures at + i < |now| && Copied(d, off, i + 1, was, at, now[at + i := d[off + i]])
  {
    assert Part(d, off, i) + [d[off + i]] == Part(d, off, i + 1);
    PatchStep(was, at, Part(d, off, i), d[off + i]);
  }

  lemma CopiedAll(d: seq<Byte>, off: nat, i: nat, len: nat, was: seq<Byte>, at: nat, now: seq<Byte>)
    requires Copied(d, off, i, was, at, now) && i <= len && (i == len || off + i >= |d|)
    ensures i == |Part(d, off, len)| && now == Patch(was, at, Part(d, off, len))
  {
    assert Part(d, off, i) == Part(d, off, len);
  }

  lemma PatchStep(was: seq<Byte>, at: nat, part: seq<Byte>, c: Byte)
    requires at + |part| < |was|
    ensures Patch(was, at, part)[at + |part| := c] == Patch(was, at, part + [c])
  {
    var s, t := Patch(was, at, part)[at + |part| := c], Patch(was, at, part + [c]);
    PatchAt(was, at, part);
    PatchAt(was, at, part + [c]);
    assert forall k :: 0 <= k < |was| ==> s[k] == t[k];
  }

  lemma {:induction false} FindPrefix(table: seq<Inode>, n: nat, path: seq<Byte>)
    requires n <= |table| && Find(table[..n], path).Some?
    ensures Find(table, path) == Find(table[..n], path)
  {
    if n < |table| {
      assert table[..|table| - 1][..n] == table[..n];
      FindPrefix(table[..|table| - 1], n, path);
    } else {
      assert table[..n] == table;
    }
  }

  lemma {:induction false} SpanAt(sects: seq<Sector>, a: nat, n: nat, p: nat)
    requires a + n <= |sects| && p < n * SECTSIZE
    ensures Span(sects, a, n)[p] == sects[a + p / SECTSIZE][p % SECTSIZE]
  {
    if p < (n - 1) * SECTSIZE {
      SpanAt(sects, a, n - 1, p);
    }
  }

  // ----- reading back what genuser wrote -----

  /** The table that init_fs leaves for an image. */
  predicate Loaded(files: seq<File>, table: seq<Inode>)
    requires Storable(files) && Fits(files)
  {
    |table| == MAX_INODE && forall i :: 0 <= i < MAX_FILE ==> table[i].valid && table[i].entry == EntryOf(files, i)
  }

  /** Files have names, and each its own. */
  predicate Distinct(files: seq<File>) {
    && (forall i :: 0 <= i < |files| ==> files[i].name != [] && 0 !in files[i].name)
    && (forall i, j :: 0 <= i < j < |files| ==> files[i].name != files[j].name)
  }

  lemma FileNamed(files: seq<File>, table: seq<Inode>, i: nat)
    requires Storable(files) && Fits(files) && Loaded(files, table) && i < |files| && 0 !in files[i].name
    ensures CString(table[i].entry.name) == files[i].name
  {
    CStringOf(files[i].name, seq(MAX_NAME + 1 - |files[i].name|, _ => 0));
  }

  /** iopen finds every file, whatever devices were added. */
  lemma FindFile(files: seq<File>, table: seq<Inode>, i: nat)
    requires Storable(files) && Fits(files) && Loaded(files, table) && Distinct(files) && i < |files|
    ensures Find(table, files[i].name) == Some(i)
  {
    forall j | 0 <= j <= i
      ensures Named(table[j], files[i].name) <==> j == i
    {
      FileNamed(files, table, j);
    }
    var r := Find(table, files[i].name);
    assert Named(table[i], files[i].name);
    assert r.Some? ==> Named(table[r.value], files[i].name);
    assert r.Some? ==> r.value <= i;
  }

  method Boot(drive: Drive, ghost files: seq<File>) returns (fs: FileSystem)
    requires Storable(files) && Fits(files) && Placed(Image(files), drive.sects[..])
    ensures fs.drive == drive && Loaded(files, fs.inodes[..])
  {
    fs := new FileSystem(drive);
    TablePlaced(files, drive.sects[..]);
    fs.InitFs();
    forall i | 0 <= i < MAX_FILE
      ensures fs.inodes[i].valid && fs.inodes[i].entry == EntryOf(files, i)
    {
      assert FromDisk(fs.inodes[i], Entries(files)[i]);
    }
  }

  /** What genuser stores, init_fs, iopen and iread give back: for every list of files, on
      every disk that has the image at sector 256, any part of any file. */
  method ReadFile(fs: FileSystem, ghost files: seq<File>, ghost k: nat, path: seq<Byte>, off: nat, buf: array<Byte>,
                  len: nat)
    returns (n: nat)
    requires Storable(files) && Fits(files) && Distinct(files) && k < |files| && files[k].name == path
    requires Placed(Image(files), fs.drive.sects[..]) && Loaded(files, fs.inodes[..])
    requires len <= buf.Length
    modifies buf
    ensures n == |Part(files[k].data, off, len)| && buf[..] == Patch(old(buf[..]), 0, Part(files[k].data, off, len))
  {
    FindFile(files, fs.inodes[..], k);
    var r := fs.IOpen(path);
    FilePlaced(files, fs.drive.sects[..], k);
    n := fs.IRead(fs.inodes[r.value].entry, off, buf, 0, len);
  }

  lemma TablePlaced(files: seq<File>, sects: seq<Sector>)
    requires Storable(files) && Fits(files) && Placed(Image(files), sects)
    ensures IMAGE_SECT < |sects| && TableOf(sects[IMAGE_SECT]) == Entries(files)
  {
    assert Image(files)[0..SECTSIZE] == TableBytes(Entries(files));
    assert SectorPlaced(Image(files), sects, 0);
    TableRoundTrip(Entries(files));
  }
}
