/** A disk as an array of sectors, and the copies between its sectors and memory. */
module Disk {
  const SECTSIZE := 512

  newtype Byte = x: int | 0 <= x < 256

  type Sector = s: seq<Byte> | |s| == SECTSIZE witness seq(SECTSIZE, _ => 0)

  // ----- bytes in memory and on disk -----

  /** s with the bytes d written at p. */
  function Patch<T>(s: seq<T>, p: nat, d: seq<T>): (t: seq<T>)
    requires p + |d| <= |s|
    ensures |t| == |s|
  {
    s[..p] + d + s[p + |d|..]
  }

  lemma PatchAt<T>(s: seq<T>, p: nat, d: seq<T>)
    requires p + |d| <= |s|
    ensures forall k :: 0 <= k < |s| ==> Patch(s, p, d)[k] == if p <= k < p + |d| then d[k - p] else s[k]
  {
  }

  lemma PatchAppend<T>(s: seq<T>, p: nat, d: seq<T>, e: seq<T>)
    requires p + |d| + |e| <= |s|
    ensures Patch(Patch(s, p, d), p + |d|, e) == Patch(s, p, d + e)
  {
    var t, u, v := Patch(s, p, d), Patch(Patch(s, p, d), p + |d|, e), Patch(s, p, d + e);
    PatchAt(s, p, d);
    PatchAt(t, p + |d|, e);
    PatchAt(s, p, d + e);
    assert forall k :: 0 <= k < |s| ==> u[k] == v[k];
  }

  lemma SameSlice<T>(s: seq<T>, t: seq<T>, a: nat, b: nat)
    requires a <= b <= |s| && b <= |t| && forall k :: a <= k < b ==> s[k] == t[k]
    ensures s[a..b] == t[a..b]
  {
    forall i | 0 <= i < b - a
      ensures s[a..b][i] == t[a..b][i]
    {
      assert s[a + i] == t[a + i];
    }
  }

  /** What stood elsewhere still does, and what was written is there. */
  lemma PatchReads<T>(s: seq<T>, p: nat, d: seq<T>, a: nat, b: nat)
    requires p + |d| <= |s| && a <= b <= |s|
    ensures b <= p || p + |d| <= a ==> Patch(s, p, d)[a..b] == s[a..b]
    ensures a == p && b == p + |d| ==> Patch(s, p, d)[a..b] == d
  {
    PatchAt(s, p, d);
    if b <= p || p + |d| <= a {
      SameSlice(Patch(s, p, d), s, a, b);
    }
    if a == p && b == p + |d| {
      assert forall i :: 0 <= i < |d| ==> Patch(s, p, d)[a..b][i] == d[i];
    }
  }

  lemma PatchOne<T>(s: seq<T>, p: nat, d: seq<T>, k: nat)
    requires p + |d| <= |s| && k < |s|
    ensures Patch(s, p, d)[k] == if p <= k < p + |d| then d[k - p] else s[k]
  {
  }

  /** A piece of what was patched inside that piece. */
  lemma PatchInside<T>(s: seq<T>, p: nat, d: seq<T>, a: nat, b: nat)
    requires a <= p && p + |d| <= b <= |s|
    ensures Patch(s, p, d)[a..b] == Patch(s[a..b], p - a, d)
  {
    var t, u := Patch(s, p, d)[a..b], Patch(s[a..b], p - a, d);
    forall k | 0 <= k < b - a
      ensures t[k] == u[k]
    {
      PatchOne(s, p, d, a + k);
      PatchOne(s[a..b], p - a, d, k);
    }
  }

  /** The bytes of n sectors from sector a on. */
  function Span(sects: seq<Sector>, a: nat, n: nat): (d: seq<Byte>)
    requires a + n <= |sects|
    ensures |d| == n * SECTSIZE
  {
    if n == 0 then [] else Span(sects, a, n - 1) + sects[a + n - 1]
  }

  lemma SpanNext(sects: seq<Sector>, a: nat, n: nat)
    requires a + n < |sects|
    ensures Span(sects, a, n + 1) == Span(sects, a, n) + sects[a + n]
  {
  }

  lemma {:induction false} SpanFrame(s: seq<Sector>, t: seq<Sector>, a: nat, n: nat)
    requires a + n <= |s| && a + n <= |t| && forall i :: a <= i < a + n ==> s[i] == t[i]
    ensures Span(s, a, n) == Span(t, a, n)
  {
    if n > 0 {
      SpanFrame(s, t, a, n - 1);
    }
  }

  /** Sectors needed for so many bytes. */
  function Sectors(nbytes: nat): nat {
    (nbytes + SECTSIZE - 1) / SECTSIZE
  }

  lemma MoreSectors(nbytes: nat, n: nat)
    ensures n * SECTSIZE < nbytes <==> n < Sectors(nbytes)
  {
  }

  // ----- the copies -----

  class Drive {
    const sects: array<Sector>

    constructor (image: seq<Sector>)
      ensures fresh(sects) && sects[..] == image
    {
      sects := new Sector[|image|](i requires 0 <= i < |image| => image[i]);
    }

    method ReadSector(mem: array<Byte>, at: nat, sect: nat)
      requires sect < sects.Length && at + SECTSIZE <= mem.Length
      modifies mem
      ensures mem[..] == Patch(old(mem[..]), at, sects[sect])
    {
      ghost var was := mem[..];
      var s := sects[sect];
      for i := 0 to SECTSIZE
        invariant forall k :: 0 <= k < mem.Length ==> mem[k] == if at <= k < at + i then s[k - at] else was[k]
      {
        mem[at + i] := s[i];
      }
    }

    method WriteSector(mem: array<Byte>, at: nat, sect: nat)
      requires sect < sects.Length && at + SECTSIZE <= mem.Length
      modifies sects
      ensures sects[..] == old(sects[..])[sect := mem[at..at + SECTSIZE]]
    {
      sects[sect] := mem[at..at + SECTSIZE];
    }

    /** One sector more behind the bytes done. */
    method ReadNext(mem: array<Byte>, cur: nat, sect: nat, ghost was: seq<Byte>, ghost at: nat, ghost done: seq<Byte>)
      requires sect < sects.Length && cur + SECTSIZE <= mem.Length && cur == at + |done|
      requires |was| == mem.Length && mem[..] == Patch(was, at, done)
      modifies mem
      ensures mem[..] == Patch(was, at, done + sects[sect])
    {
      ReadSector(mem, cur, sect);
      PatchAppend(was, at, done, sects[sect]);
    }

    method CopyFrom(mem: array<Byte>, at: nat, nbytes: nat, offset: nat)
      requires at + Sectors(nbytes) * SECTSIZE <= mem.Length && offset / SECTSIZE + Sectors(nbytes) <= sects.Length
      modifies mem
      ensures mem[..] == Patch(old(mem[..]), at, Span(sects[..], offset / SECTSIZE, Sectors(nbytes)))
    {
      var cur, sect := at, offset / SECTSIZE;
      ghost var was, image, a, n, done := mem[..], sects[..], sect, 0, [];
      while cur < at + nbytes
        invariant n <= Sectors(nbytes) && cur == at + n * SECTSIZE && sect == a + n
        invariant sects[..] == image && done == Span(image, a, n) && mem[..] == Patch(was, at, done)
      {
        MoreSectors(nbytes, n);
        ReadNext(mem, cur, sect, was, at, done);
        SpanNext(image, a, n);
        done := done + image[sect];
        cur, sect := cur + SECTSIZE, sect + 1;
        n := n + 1;
      }
      MoreSectors(nbytes, n);
    }

    method CopyTo(mem: array<Byte>, at: nat, nbytes: nat, offset: nat)
      requires at + Sectors(nbytes) * SECTSIZE <= mem.Length && offset / SECTSIZE + Sectors(nbytes) <= sects.Length
      modifies sects
      ensures var a, n := offset / SECTSIZE, Sectors(nbytes);
              && Span(sects[..], a, n) == mem[at..at + n * SECTSIZE]
              && forall i :: 0 <= i < sects.Length && !(a <= i < a + n) ==> sects[i] == old(sects[i])
    {
      var cur, sect := at, offset / SECTSIZE;
      ghost var n := 0;
      while cur < at + nbytes
        invariant n <= Sectors(nbytes) && cur == at + n * SECTSIZE && sect == offset / SECTSIZE + n
        invariant Span(sects[..], offset / SECTSIZE, n) == mem[at..cur]
        invariant forall i :: 0 <= i < sects.Length && !(offset / SECTSIZE <= i < sect) ==> sects[i] == old(sects[i])
      {
        ghost var was := sects[..];
        MoreSectors(nbytes, n);
        WriteSector(mem, cur, sect);
        SpanFrame(was, sects[..], offset / SECTSIZE, n);
        assert mem[at..cur + SECTSIZE] == mem[at..cur] + mem[cur..cur + SECTSIZE];
        cur, sect := cur + SECTSIZE, sect + 1;
        n := n + 1;
      }
      MoreSectors(nbytes, n);
    }
  }
}
