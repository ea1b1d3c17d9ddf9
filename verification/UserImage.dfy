/** genuser: the image with the user programs, a table of inodes and the files behind it. */
module UserImage {
  import opened Disk
  import opened Options
  import opened Words

  const MAX_NAME := 23
  const ENTRY_SIZE := 32
  const MAX_FILE := SECTSIZE / ENTRY_SIZE
  /** The sector of the disk where the image starts. */
  const IMAGE_SECT := 256
  const DISK_SECTS := 262144

  // ----- the table -----

  datatype Entry = Entry(start: Word, length: Word, name: seq<Byte>)

  type DiskEntry = e: Entry | |e.name| == MAX_NAME + 1 witness Entry(0, 0, seq(MAX_NAME + 1, _ => 0))

  function EntryBytes(e: DiskEntry): (b: seq<Byte>)
    ensures |b| == ENTRY_SIZE
  {
    Encode([e.start, e.length]) + e.name
  }

  function EntryFrom(b: seq<Byte>): DiskEntry
    requires |b| == ENTRY_SIZE
  {
    Entry(WordAt(b, 0), WordAt(b, 4), b[8..])
  }

  lemma EntryRoundTrip(e: DiskEntry)
    ensures EntryFrom(EntryBytes(e)) == e
  {
    var b := Encode([e.start, e.length]);
    DecodeEncode([e.start, e.length]);
    assert Decode(b)[0] == WordAt(b, 0) && Decode(b)[1] == WordAt(b, 4);
    assert forall k :: 0 <= k < 8 ==> EntryBytes(e)[k] == b[k];
  }

  /** Start, length and name, at bytes 0, 4 and 8 of the entry. */
  lemma EntryLayout(e: DiskEntry)
    ensures var b := EntryBytes(e); WordAt(b, 0) == e.start && WordAt(b, 4) == e.length && b[8..] == e.name
  {
    EntryRoundTrip(e);
  }

  /** A sector full of entries. */
  function TableBytes(t: seq<DiskEntry>): (b: seq<Byte>)
    requires |t| == MAX_FILE
    ensures |b| == SECTSIZE
  {
    seq(SECTSIZE, k requires 0 <= k < SECTSIZE => EntryBytes(t[k / ENTRY_SIZE])[k % ENTRY_SIZE])
  }

  /** A sector read as a table. */
  function TableOf(b: Sector): (t: seq<DiskEntry>)
    ensures |t| == MAX_FILE
  {
    seq(MAX_FILE, i requires 0 <= i < MAX_FILE => EntryFrom(b[i * ENTRY_SIZE..(i + 1) * ENTRY_SIZE]))
  }

  lemma TableRoundTrip(t: seq<DiskEntry>)
    requires |t| == MAX_FILE
    ensures TableOf(TableBytes(t)) == t
  {
    forall i | 0 <= i < MAX_FILE
      ensures TableOf(TableBytes(t))[i] == t[i]
    {
      EntryInTable(t, i);
      EntryRoundTrip(t[i]);
    }
  }

  lemma EntryInTable(t: seq<DiskEntry>, i: nat)
    requires |t| == MAX_FILE && i < MAX_FILE
    ensures TableBytes(t)[i * ENTRY_SIZE..(i + 1) * ENTRY_SIZE] == EntryBytes(t[i])
  {
    forall k | 0 <= k < ENTRY_SIZE
      ensures TableBytes(t)[i * ENTRY_SIZE + k] == EntryBytes(t[i])[k]
    {
      assert (i * ENTRY_SIZE + k) / ENTRY_SIZE == i && (i * ENTRY_SIZE + k) % ENTRY_SIZE == k;
    }
  }

  // ----- names -----

  /** The characters of a field up to the first NUL. */
  function CString(b: seq<Byte>): seq<Byte> {
    if b == [] || b[0] == 0 then [] else [b[0]] + CString(b[1..])
  }

  function Field(name: seq<Byte>): seq<Byte>
    requires |name| <= MAX_NAME
    ensures |Field(name)| == MAX_NAME + 1 && name <= Field(name)
    ensures forall k :: |name| <= k <= MAX_NAME ==> Field(name)[k] == 0
  {
    name + seq(MAX_NAME + 1 - |name|, _ => 0)
  }

  lemma {:induction false} CStringOf(name: seq<Byte>, rest: seq<Byte>)
    requires 0 !in name && rest != [] && rest[0] == 0
    ensures CString(name + rest) == name
  {
    if name == [] {
      assert name + rest == rest;
    } else {
      assert (name + rest)[1..] == name[1..] + rest;
      CStringOf(name[1..], rest);
    }
  }

  // ----- the image -----

  datatype File = File(name: seq<Byte>, data: seq<Byte>)

  /** What the source asks of its files, with C strings for names, on a disk with room for them. */
  predicate Storable(files: seq<File>) {
    && 1 <= |files| <= MAX_FILE
    && (forall i :: 0 <= i < |files| ==> |files[i].name| <= MAX_NAME)
  }

  predicate Fits(files: seq<File>) {
    StartOf(files, |files|) <= DISK_SECTS
  }

  /** The sector where file i starts: behind the table and the files before it. */
  function StartOf(files: seq<File>, i: nat): (s: nat)
    requires i <= |files|
    ensures s > IMAGE_SECT
  {
    if i == 0 then IMAGE_SECT + 1 else StartOf(files, i - 1) + Sectors(|files[i - 1].data|)
  }

  function EndOf(files: seq<File>, i: nat): (s: nat)
    requires i < |files|
    ensures s == StartOf(files, i + 1) >= StartOf(files, i)
  {
    StartOf(files, i) + Sectors(|files[i].data|)
  }

  lemma {:induction false} StartsGrow(files: seq<File>, i: nat, j: nat)
    requires i <= j <= |files|
    ensures StartOf(files, i) <= StartOf(files, j)
  {
    if i < j {
      StartsGrow(files, i, j - 1);
      assert EndOf(files, j - 1) >= StartOf(files, j - 1);
    }
  }

  lemma {:induction false} SectorsInside(files: seq<File>, i: nat)
    requires i < |files|
    ensures IMAGE_SECT < StartOf(files, i) <= EndOf(files, i) <= StartOf(files, |files|)
  {
    StartsGrow(files, i + 1, |files|);
  }

  /** No sector belongs to two files. */
  lemma {:induction false} SectorsApart(files: seq<File>, i: nat, j: nat)
    requires i < j < |files|
    ensures EndOf(files, i) <= StartOf(files, j)
  {
    StartsGrow(files, i + 1, j);
  }

  function EntryOf(files: seq<File>, i: nat): DiskEntry
    requires Fits(files) && (i < |files| ==> |files[i].name| <= MAX_NAME)
  {
    if i < |files| then
      EntrySmall(files, i);
      Entry(StartOf(files, i), |files[i].data|, Field(files[i].name))
    else Entry(0, 0, Field([]))
  }

  lemma EntrySmall(files: seq<File>, i: nat)
    requires i < |files| && Fits(files)
    ensures StartOf(files, i) < 0x1_0000_0000 && |files[i].data| < 0x1_0000_0000
  {
    StartsGrow(files, i, |files|);
    StartsGrow(files, i + 1, |files|);
  }

  function Entries(files: seq<File>): (t: seq<DiskEntry>)
    requires Storable(files) && Fits(files)
    ensures |t| == MAX_FILE
  {
    seq(MAX_FILE, i requires 0 <= i < MAX_FILE => EntryOf(files, i))
  }

  /** A file as whole sectors, filled up with zeros. */
  function Padded(data: seq<Byte>): (b: seq<Byte>)
    ensures |b| == Sectors(|data|) * SECTSIZE && data <= b && forall k :: |data| <= k < |b| ==> b[k] == 0
    ensures |b| % 512 == 0 && |data| <= |b| < |data| + 512
  {
    data + seq(Sectors(|data|) * SECTSIZE - |data|, _ => 0)
  }

  function Body(files: seq<File>, n: nat): (b: seq<Byte>)
    requires n <= |files|
    ensures |b| == (StartOf(files, n) - IMAGE_SECT - 1) * SECTSIZE
  {
    if n == 0 then [] else Body(files, n - 1) + Padded(files[n - 1].data)
  }

  function Image(files: seq<File>): (b: seq<Byte>)
    requires Storable(files) && Fits(files)
    ensures |b| == (StartOf(files, |files|) - IMAGE_SECT) * SECTSIZE
  {
    TableBytes(Entries(files)) + Body(files, |files|)
  }

  lemma JoinSlices<T>(b: seq<T>, c: seq<T>, a: nat, e: nat)
    requires a <= e <= |b|
    ensures (b + c)[a..e] == b[a..e] && (b + c)[|b|..|b| + |c|] == c
  {
  }

  lemma {:induction false} BodySlice(files: seq<File>, n: nat, i: nat)
    requires i < n <= |files|
    ensures var a, p := (StartOf(files, i) - IMAGE_SECT - 1) * SECTSIZE, Padded(files[i].data);
            a + |p| <= |Body(files, n)| && Body(files, n)[a..a + |p|] == p
  {
    var b, c := Body(files, n - 1), Padded(files[n - 1].data);
    if i < n - 1 {
      BodySlice(files, n - 1, i);
      var a := (StartOf(files, i) - IMAGE_SECT - 1) * SECTSIZE;
      JoinSlices(b, c, a, a + |Padded(files[i].data)|);
    } else {
      JoinSlices(b, c, 0, 0);
    }
  }

  // ----- the program -----

  function Zeros(): Sector {
    seq(SECTSIZE, _ => 0)
  }

  class Builder {
    const inode: array<DiskEntry>
    const buf: array<Byte>
    var fileNum: nat
    var currSect: nat
    /** What has been written to the image file. */
    var disk: seq<Byte>

    /** The first files of the list have been added. */
    ghost predicate Valid(files: seq<File>)
      requires Fits(files)
      reads this, inode, buf
    {
      && inode.Length == MAX_FILE && buf.Length == SECTSIZE
      && fileNum <= MAX_FILE && fileNum <= |files| && (forall i :: 0 <= i < fileNum ==> |files[i].name| <= MAX_NAME)
      && currSect == StartOf(files, fileNum)
      && |disk| == (currSect - IMAGE_SECT) * SECTSIZE && disk[SECTSIZE..] == Body(files, fileNum)
      && forall i :: 0 <= i < MAX_FILE ==> inode[i] == if i < fileNum then EntryOf(files, i) else Entry(0, 0, Field([]))
    }

    constructor ()
      ensures fresh(inode) && fresh(buf) && inode.Length == MAX_FILE && buf.Length == SECTSIZE
      ensures fileNum == 0 && currSect == IMAGE_SECT + 1 && disk == []
      ensures (forall i :: 0 <= i < MAX_FILE ==> inode[i] == Entry(0, 0, Field([]))) && buf[..] == Zeros()
    {
      inode := new DiskEntry[MAX_FILE](_ => Entry(0, 0, Field([])));
      buf := new Byte[SECTSIZE](_ => 0);
      fileNum, currSect, disk := 0, IMAGE_SECT + 1, [];
    }

    /** How much one fread delivers at pos. */
    static function Chunk(data: seq<Byte>, pos: nat): (n: nat)
      requires pos <= |data|
      ensures pos + n <= |data| && n <= SECTSIZE
    {
      if |data| - pos < SECTSIZE then |data| - pos else SECTSIZE
    }

    /** Reads what is left of a file, at most a sector, to the start of the buffer. */
    method FRead(data: seq<Byte>, pos: nat) returns (n: nat)
      requires pos <= |data| && buf.Length == SECTSIZE
      modifies buf
      ensures n == Chunk(data, pos)
      ensures buf[..n] == data[pos..pos + n]
    {
      n := Chunk(data, pos);
      forall k | 0 <= k < n {
        buf[k] := data[pos + k];
      }
    }

    /** The memset behind a short read. */
    method ClearFrom(n: nat)
      requires n <= buf.Length == SECTSIZE
      modifies buf
      ensures buf[..n] == old(buf[..n]) && forall j :: n <= j < SECTSIZE ==> buf[..][j] == 0
    {
      forall k | n <= k < SECTSIZE {
        buf[k] := 0;
      }
    }

    method CopyFile(data: seq<Byte>)
      requires buf.Length == SECTSIZE
      modifies this`disk, buf
      ensures disk == old(disk) + Padded(data)
    {
      var pos := 0;
      var n := FRead(data, pos);
      ghost var was := disk;
      while n > 0
        invariant 0 <= pos <= |data| && n == Chunk(data, pos)
        invariant pos % SECTSIZE == 0 || pos == |data|
        invariant buf[..n] == data[pos..pos + n]
        invariant disk == was + Padded(data[..pos])
        decreases |data| - pos
      {
        WriteSector(data, pos, n, was);
        pos := pos + n;
        n := FRead(data, pos);
      }
      assert data[..pos] == data;
    }

    /** Writes the buffer out, with zeros behind what is left of the file. */
    method WriteSector(ghost data: seq<Byte>, ghost pos: nat, n: nat, ghost was: seq<Byte>)
      requires buf.Length == SECTSIZE && pos % SECTSIZE == 0 && 0 < n && pos <= |data| && n == Chunk(data, pos)
      requires buf[..n] == data[pos..pos + n] && disk == was + Padded(data[..pos])
      modifies this`disk, buf
      ensures disk == was + Padded(data[..pos + n])
    {
      if n < SECTSIZE {
        ClearFrom(n);
      }
      ghost var b := buf[..];
      PaddedStep(data, pos, n, b);
      assert disk + b == was + (Padded(data[..pos]) + b);
      disk := disk + buf[..];
    }

    /** Adds the next file, unless there is no entry for it or its name is too long. */
    method AddFile(ghost files: seq<File>, f: File) returns (ok: bool)
      requires Fits(files) && Valid(files) && fileNum < |files| && files[fileNum] == f
      modifies this, inode, buf
      ensures ok <==> old(fileNum) < MAX_FILE && |f.name| <= MAX_NAME
      ensures ok ==> Valid(files) && fileNum == old(fileNum) + 1
    {
      if fileNum >= MAX_FILE || |f.name| > MAX_NAME {
        return false;
      }
      EntrySmall(files, fileNum);
      inode[fileNum] := Entry(currSect, |f.data|, Field(f.name));
      currSect := currSect + Sectors(|f.data|);
      fileNum := fileNum + 1;
      ghost var was := disk;
      CopyFile(f.data);
      assert disk[SECTSIZE..] == was[SECTSIZE..] + Padded(f.data);
      ok := true;
    }

    /** Back to the start of the file, to write the table there. */
    method WriteInode(ghost files: seq<File>)
      requires Storable(files) && Fits(files) && Valid(files) && fileNum == |files|
      modifies this
      ensures disk == Image(files)
    {
      assert inode[..] == Entries(files);
      disk := TableBytes(inode[..]) + disk[SECTSIZE..];
    }
  }

  /** The whole program, which gives up without files, with too many, or with a name too long. */
  method Build(files: seq<File>) returns (image: Option<seq<Byte>>)
    requires Fits(files)
    ensures image == if Storable(files) then Some(Image(files)) else None
  {
    if |files| == 0 {
      return None;
    }
    var b := new Builder();
    b.disk := b.disk + b.buf[..];
    assert b.disk[SECTSIZE..] == Body(files, 0);
    for i := 0 to |files|
      invariant b.Valid(files) && b.fileNum == i && fresh(b) && fresh(b.inode) && fresh(b.buf)
    {
      var ok := b.AddFile(files, files[i]);
      if !ok {
        return None;
      }
    }
    b.WriteInode(files);
    image := Some(b.disk);
  }

  lemma PaddedStep(data: seq<Byte>, pos: nat, n: nat, b: seq<Byte>)
    requires pos % SECTSIZE == 0 && 0 < n <= SECTSIZE && pos + n <= |data| && |b| == SECTSIZE
    requires b[..n] == data[pos..pos + n] && (n < SECTSIZE ==> pos + n == |data|)
    requires forall j :: n <= j < SECTSIZE ==> b[j] == 0
    ensures Padded(data[..pos]) + b == Padded(data[..pos + n])
  {
    assert Padded(data[..pos]) == data[..pos];
    assert data[..pos] + b[..n] == data[..pos + n];
    var s, t := Padded(data[..pos]) + b, Padded(data[..pos + n]);
    assert |s| == |t|;
    forall k | 0 <= k < |s|
      ensures s[k] == t[k]
    {
      assert pos <= k < pos + n ==> b[k - pos] == b[..n][k - pos] == data[pos..pos + n][k - pos];
    }
  }
}
