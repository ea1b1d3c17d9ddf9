/** Address-ordered circular free lists over header units, as values.
    A list is given by its blocks in address order; the first one is the sentinel of size 0
    that lies below the heap. */
module FreeList {

  datatype Block = Block(addr: int, size: int)

  /** The two fields of a header unit in memory. */
  datatype Header = Header(ptr: int, size: int)

  function End(b: Block): int {
    b.addr + b.size
  }

  function Succ(i: int, n: int): int {
    if i + 1 == n then 0 else i + 1
  }

  /** Unit u belongs to one of the blocks. */
  ghost predicate Covers(bs: seq<Block>, u: int) {
    exists i :: 0 <= i < |bs| && Within(bs[i], u)
  }

  ghost predicate Within(b: Block, u: int) {
    b.addr <= u < End(b)
  }

  /** Strictly ordered by address, and never adjacent: a unit is missing between any two. */
  ghost predicate Separated(bs: seq<Block>) {
    forall i, j :: 0 <= i < j < |bs| ==> End(bs[i]) < bs[j].addr
  }

  ghost predicate NonEmpty(bs: seq<Block>) {
    forall i :: 0 <= i < |bs| ==> bs[i].size >= 1
  }

  ghost predicate Shape(bs: seq<Block>, base: int, brk: int) {
    && |bs| > 0 && bs[0] == Block(base, 0) && base < brk
    && (forall i :: 0 < i < |bs| ==> bs[i].size >= 1) && Separated(bs)
    && forall i :: 0 <= i < |bs| ==> End(bs[i]) <= brk
  }

  lemma ShapeOrder(bs: seq<Block>, base: int, brk: int)
    requires Shape(bs, base, brk)
    ensures forall i, j :: 0 <= i < j < |bs| ==> bs[i].addr < bs[j].addr
  {
  }

  /** The headers in memory form one cycle through the blocks in order, with their sizes. */
  ghost predicate Linked(m: seq<Header>, bs: seq<Block>) {
    forall i :: 0 <= i < |bs| ==> LinkAt(m, bs, i)
  }

  ghost predicate LinkAt(m: seq<Header>, bs: seq<Block>, i: int)
    requires 0 <= i < |bs|
  {
    0 <= bs[i].addr < |m| && m[bs[i].addr] == Header(bs[Succ(i, |bs|)].addr, bs[i].size)
  }

  // ----- the list is determined by its units -----

  ghost predicate SameUnits(bs: seq<Block>, cs: seq<Block>) {
    forall u :: Covers(bs, u) <==> Covers(cs, u)
  }

  lemma TailCovers(bs: seq<Block>)
    requires |bs| > 0 && Separated(bs) && NonEmpty(bs)
    ensures forall u :: Covers(bs[1..], u) <==> Covers(bs, u) && u >= End(bs[0])
  {
  }

  /** Where the first block starts and ends shows in the covered units alone. */
  lemma FirstBlock(bs: seq<Block>)
    requires |bs| > 0 && Separated(bs) && NonEmpty(bs)
    ensures forall u :: Covers(bs, u) ==> u >= bs[0].addr
    ensures forall u :: Within(bs[0], u) ==> Covers(bs, u)
    ensures !Covers(bs, End(bs[0]))
  {
  }

  /** Coalescing is complete: two separated lists with the same units are the same list. */
  lemma {:induction false} UniqueList(bs: seq<Block>, cs: seq<Block>)
    requires Separated(bs) && NonEmpty(bs) && Separated(cs) && NonEmpty(cs)
    requires SameUnits(bs, cs)
    ensures bs == cs
  {
    if |bs| > 0 {
      FirstBlock(bs);
      assert Within(bs[0], bs[0].addr);
    }
    if |cs| > 0 {
      FirstBlock(cs);
      assert Within(cs[0], cs[0].addr);
    }
    if |bs| > 0 && |cs| > 0 {
      assert bs[0].addr == cs[0].addr;
      assert bs[0].size <= cs[0].size by {
        assert Covers(cs, End(cs[0])) <==> Covers(bs, End(cs[0]));
        assert !Within(bs[0], End(cs[0]));
      }
      assert cs[0].size <= bs[0].size by {
        assert Covers(bs, End(bs[0])) <==> Covers(cs, End(bs[0]));
        assert !Within(cs[0], End(bs[0]));
      }
      TailCovers(bs);
      TailCovers(cs);
      UniqueList(bs[1..], cs[1..]);
      assert bs == [bs[0]] + bs[1..] && cs == [cs[0]] + cs[1..];
    }
  }

  // ----- insertion with coalescing -----

  ghost predicate InsertPoint(bs: seq<Block>, t: int, addr: int) {
    0 <= t < |bs| && bs[t].addr < addr && (t + 1 < |bs| ==> addr < bs[t + 1].addr)
  }

  /** Index of the last entry that starts below addr. */
  ghost function InsertIndex(bs: seq<Block>, addr: int): (t: int)
    requires |bs| > 0 && bs[0].addr < addr
    requires forall i :: 0 <= i < |bs| ==> bs[i].addr != addr
    ensures InsertPoint(bs, t, addr)
  {
    if |bs| == 1 || addr < bs[1].addr then 0 else InsertIndex(bs[1..], addr) + 1
  }

  /** b touches no block of the list. */
  ghost predicate Apart(bs: seq<Block>, b: Block) {
    forall i :: 0 <= i < |bs| ==> End(bs[i]) <= b.addr || End(b) <= bs[i].addr
  }

  ghost predicate MergesUp(bs: seq<Block>, t: int, b: Block)
    requires 0 <= t < |bs|
  {
    t + 1 < |bs| && End(b) == bs[t + 1].addr
  }

  ghost predicate MergesDown(bs: seq<Block>, t: int, b: Block)
    requires 0 <= t < |bs|
  {
    End(bs[t]) == b.addr
  }

  /** The block that b becomes once merged with its neighbours. */
  ghost function Merged(bs: seq<Block>, t: int, b: Block): Block
    requires 0 <= t < |bs|
  {
    var lo := if MergesDown(bs, t, b) then bs[t].addr else b.addr;
    var hi := if MergesUp(bs, t, b) then End(bs[t + 1]) else End(b);
    Block(lo, hi - lo)
  }

  /** First and last-plus-one index of the old blocks that the merged block replaces. */
  ghost function Lo(bs: seq<Block>, t: int, b: Block): int
    requires 0 <= t < |bs|
  {
    if MergesDown(bs, t, b) then t else t + 1
  }

  ghost function Hi(bs: seq<Block>, t: int, b: Block): int
    requires 0 <= t < |bs|
  {
    if MergesUp(bs, t, b) then t + 2 else t + 1
  }

  /** cs is bs with b put after entry t and merged with its neighbours. */
  ghost predicate Inserted(bs: seq<Block>, t: int, b: Block, cs: seq<Block>)
    requires 0 <= t < |bs|
  {
    var lo, hi := Lo(bs, t, b), Hi(bs, t, b);
    && |cs| == lo + 1 + |bs| - hi
    && cs[lo] == Merged(bs, t, b)
    && (forall i :: 0 <= i < lo ==> cs[i] == bs[i])
    && (forall i :: lo < i < |cs| ==> cs[i] == bs[i + hi - lo - 1])
  }

  /** The old index of the entry i of an insertion, for all but the merged one. */
  ghost function Origin(bs: seq<Block>, t: int, b: Block, i: int): int
    requires 0 <= t < |bs|
  {
    if i < Lo(bs, t, b) then i else i + Hi(bs, t, b) - Lo(bs, t, b) - 1
  }

  ghost function Insert(bs: seq<Block>, t: int, b: Block): (cs: seq<Block>)
    requires 0 <= t < |bs|
    ensures Inserted(bs, t, b, cs)
  {
    bs[..Lo(bs, t, b)] + [Merged(bs, t, b)] + bs[Hi(bs, t, b)..]
  }

  lemma InsertShape(bs: seq<Block>, t: int, b: Block, cs: seq<Block>, base: int, brk: int)
    requires Shape(bs, base, brk) && InsertPoint(bs, t, b.addr) && Inserted(bs, t, b, cs)
    requires b.size >= 1 && End(b) <= brk && Apart(bs, b)
    ensures Shape(cs, base, brk)
  {
    var lo := Lo(bs, t, b);
    assert lo > 0;
    assert t + 1 < |bs| ==> End(b) <= bs[t + 1].addr;
    forall i, j | 0 <= i < j < |cs|
      ensures End(cs[i]) < cs[j].addr
    {
      SeparatedAround(bs, t, b, cs, i, j);
    }
    forall i | 0 <= i < |cs|
      ensures End(cs[i]) <= brk && (i > 0 ==> cs[i].size >= 1)
    {
      if i != lo {
        assert cs[i] == bs[Origin(bs, t, b, i)];
      }
    }
  }

  /** After the insertion entry t is the last one that starts below the block. */
  lemma InsertOrder(bs: seq<Block>, t: int, b: Block, cs: seq<Block>, base: int, brk: int)
    requires Shape(bs, base, brk) && InsertPoint(bs, t, b.addr) && Inserted(bs, t, b, cs)
    requires b.size >= 1 && Shape(cs, base, brk)
    ensures t < |cs| && cs[t].addr < b.addr
    ensures forall i :: t < i < |cs| ==> b.addr <= cs[i].addr
  {
    var lo := Lo(bs, t, b);
    assert cs[lo] == Merged(bs, t, b) && End(cs[lo]) >= End(b);
    if lo > t {
      assert cs[t] == bs[t] && cs[lo].addr == b.addr;
    }
    forall i | t < i < |cs|
      ensures b.addr <= cs[i].addr
    {
      if i > lo {
        assert End(cs[lo]) < cs[i].addr;
      }
    }
  }

  lemma SeparatedAround(bs: seq<Block>, t: int, b: Block, cs: seq<Block>, i: int, j: int)
    requires Separated(bs) && (forall k :: 0 <= k < |bs| ==> bs[k].size >= 0)
    requires InsertPoint(bs, t, b.addr) && b.size >= 1 && Apart(bs, b) && Inserted(bs, t, b, cs)
    requires 0 <= i < j < |cs|
    ensures End(cs[i]) < cs[j].addr
  {
  }

  /** Insertion adds exactly the units of the block. */
  lemma InsertCovers(bs: seq<Block>, t: int, b: Block, cs: seq<Block>)
    requires forall k :: 0 <= k < |bs| ==> bs[k].size >= 0
    requires 0 <= t < |bs| && b.size >= 1 && Inserted(bs, t, b, cs)
    ensures forall u :: Covers(cs, u) <==> Covers(bs, u) || Within(b, u)
  {
    var lo, hi := Lo(bs, t, b), Hi(bs, t, b);
    forall i, u | 0 <= i < |cs| && Within(cs[i], u)
      ensures Covers(bs, u) || Within(b, u)
    {
      if i < lo {
        assert Within(bs[i], u);
      } else if i > lo {
        assert Within(bs[i + hi - lo - 1], u);
      } else {
        MergedParts(bs, t, b, u);
      }
    }
    forall i, u | 0 <= i < |bs| && Within(bs[i], u)
      ensures Covers(cs, u)
    {
      if i < lo {
        assert Within(cs[i], u);
      } else if i >= hi {
        assert Within(cs[i - hi + lo + 1], u);
      } else {
        MergedParts(bs, t, b, u);
        assert Within(cs[lo], u);
      }
    }
    forall u | Within(b, u)
      ensures Covers(cs, u)
    {
      MergedParts(bs, t, b, u);
      assert Within(cs[lo], u);
    }
  }

  lemma MergedParts(bs: seq<Block>, t: int, b: Block, u: int)
    requires forall k :: 0 <= k < |bs| ==> bs[k].size >= 0
    requires 0 <= t < |bs| && b.size >= 1
    ensures Within(Merged(bs, t, b), u) <==>
            || Within(b, u)
            || (MergesDown(bs, t, b) && Within(bs[t], u))
            || (MergesUp(bs, t, b) && Within(bs[t + 1], u))
    ensures Within(Merged(bs, t, b), u) ==> Covers(bs, u) || Within(b, u)
  {
  }

  /** What the two headers written by an insertion hold afterwards, over the four cases of
      merging up, merging down, both or neither; nothing else in memory changes. */
  ghost predicate InsertWrites(m: seq<Header>, m': seq<Header>, bs: seq<Block>, t: int, b: Block)
    requires 0 <= t < |bs| && 0 <= b.addr < |m| && 0 <= bs[t].addr < |m|
  {
    var next := bs[Succ(if MergesUp(bs, t, b) then t + 1 else t, |bs|)].addr;
    && |m'| == |m|
    && (forall x :: 0 <= x < |m| && x != b.addr && x != bs[t].addr ==> m'[x] == m[x])
    && if MergesDown(bs, t, b) then m'[bs[t].addr] == Header(next, Merged(bs, t, b).size)
       else m'[bs[t].addr] == Header(b.addr, bs[t].size) && m'[b.addr] == Header(next, Merged(bs, t, b).size)
  }

  lemma InsertLinked(m: seq<Header>, m': seq<Header>, bs: seq<Block>, t: int, b: Block, cs: seq<Block>,
                     base: int, brk: int)
    requires Shape(bs, base, brk) && Linked(m, bs) && InsertPoint(bs, t, b.addr) && LinkAt(m, bs, t)
    requires 0 <= b.addr < |m| && InsertWrites(m, m', bs, t, b) && Inserted(bs, t, b, cs)
    ensures Linked(m', cs)
  {
    forall i | 0 <= i < |cs|
      ensures LinkAt(m', cs, i)
    {
      InsertLinkAt(m, m', bs, t, b, cs, i, base, brk);
    }
  }

  lemma InsertSucc(bs: seq<Block>, t: int, b: Block, cs: seq<Block>, i: int)
    requires 0 <= t < |bs| && Inserted(bs, t, b, cs) && 0 < Lo(bs, t, b) && 0 <= i < |cs|
    ensures i == Lo(bs, t, b) ==>
              cs[Succ(i, |cs|)].addr == bs[Succ(if MergesUp(bs, t, b) then t + 1 else t, |bs|)].addr
    ensures i != Lo(bs, t, b) ==>
              var j := Origin(bs, t, b, i);
              && 0 <= j < |bs| && cs[i] == bs[j]
              && cs[Succ(i, |cs|)].addr == if j == t then b.addr else bs[Succ(j, |bs|)].addr
  {
  }

  lemma InsertLinkAt(m: seq<Header>, m': seq<Header>, bs: seq<Block>, t: int, b: Block, cs: seq<Block>, i: int,
                     base: int, brk: int)
    requires Shape(bs, base, brk) && Linked(m, bs) && InsertPoint(bs, t, b.addr) && LinkAt(m, bs, t)
    requires 0 <= b.addr < |m| && InsertWrites(m, m', bs, t, b) && Inserted(bs, t, b, cs)
    requires 0 <= i < |cs|
    ensures LinkAt(m', cs, i)
  {
    var lo := Lo(bs, t, b);
    InsertSucc(bs, t, b, cs, i);
    if i != lo {
      var j := Origin(bs, t, b, i);
      assert LinkAt(m, bs, j);
      if j != t {
        KeptEntry(m, m', bs, t, b, j, base, brk);
      }
    }
  }

  lemma KeptEntry(m: seq<Header>, m': seq<Header>, bs: seq<Block>, t: int, b: Block, i: int, base: int, brk: int)
    requires Shape(bs, base, brk) && InsertPoint(bs, t, b.addr)
    requires 0 <= b.addr < |m| && 0 <= bs[t].addr < |m| && InsertWrites(m, m', bs, t, b)
    requires 0 <= i < |bs| && i != t && 0 <= bs[i].addr < |m|
    ensures m'[bs[i].addr] == m[bs[i].addr]
  {
  }

  // ----- allocation -----

  ghost predicate Fits(bs: seq<Block>, n: int) {
    exists i :: 0 <= i < |bs| && bs[i].size >= n
  }

  ghost function Remaining(bs: seq<Block>, cur: int, k: int): int {
    if k > cur then |bs| - k + cur else cur - k
  }

  /** The first entry of at least n units going round from k until cur, or -1. */
  ghost function FirstFrom(bs: seq<Block>, cur: int, n: int, k: int): int
    requires 0 <= cur < |bs| && 0 <= k < |bs|
    decreases Remaining(bs, cur, k)
  {
    if bs[k].size >= n then k
    else if k == cur then -1
    else FirstFrom(bs, cur, n, Succ(k, |bs|))
  }

  /** First fit: the search starts after the roving position and ends with it. */
  ghost function FirstFit(bs: seq<Block>, cur: int, n: int): int
    requires 0 <= cur < |bs|
  {
    FirstFrom(bs, cur, n, Succ(cur, |bs|))
  }

  /** Entry j is visited from k on, going round until cur. */
  ghost predicate Ahead(cur: int, k: int, j: int) {
    if k > cur then j >= k || j <= cur else k <= j <= cur
  }

  lemma {:induction false} FirstFromFits(bs: seq<Block>, cur: int, n: int, k: int)
    requires 0 <= cur < |bs| && 0 <= k < |bs|
    ensures var f := FirstFrom(bs, cur, n, k);
            if f == -1 then forall j :: 0 <= j < |bs| && Ahead(cur, k, j) ==> bs[j].size < n
            else && 0 <= f < |bs| && bs[f].size >= n && Ahead(cur, k, f)
                 && forall j :: 0 <= j < |bs| && Ahead(cur, k, j) && !Ahead(cur, f, j) ==> bs[j].size < n
    decreases Remaining(bs, cur, k)
  {
    if bs[k].size < n && k != cur {
      FirstFromFits(bs, cur, n, Succ(k, |bs|));
    }
  }

  /** First fit finds a block exactly when one is large enough, and passes over none. */
  lemma FirstFitFits(bs: seq<Block>, cur: int, n: int)
    requires 0 <= cur < |bs|
    ensures var f := FirstFit(bs, cur, n);
            if f == -1 then !Fits(bs, n)
            else 0 <= f < |bs| && bs[f].size >= n && forall j :: 0 <= j < |bs| && !Ahead(cur, f, j) ==> bs[j].size < n
  {
    FirstFromFits(bs, cur, n, Succ(cur, |bs|));
    assert forall j :: 0 <= j < |bs| ==> Ahead(cur, Succ(cur, |bs|), j);
  }

  /** cs is bs with n units cut from the tail of block k, which disappears when used up. */
  ghost predicate Carved(bs: seq<Block>, k: int, n: int, cs: seq<Block>)
    requires 0 <= k < |bs|
  {
    if bs[k].size == n then
      && |cs| == |bs| - 1
      && (forall i :: 0 <= i < k ==> cs[i] == bs[i])
      && (forall i :: k <= i < |cs| ==> cs[i] == bs[i + 1])
    else
      cs == bs[k := Block(bs[k].addr, bs[k].size - n)]
  }

  ghost function Carve(bs: seq<Block>, k: int, n: int): (cs: seq<Block>)
    requires 0 <= k < |bs|
    ensures Carved(bs, k, n, cs)
  {
    if bs[k].size == n then bs[..k] + bs[k + 1..] else bs[k := Block(bs[k].addr, bs[k].size - n)]
  }

  lemma CarveShape(bs: seq<Block>, k: int, n: int, cs: seq<Block>, base: int, brk: int)
    requires Shape(bs, base, brk) && 0 < k < |bs| && 1 <= n <= bs[k].size && Carved(bs, k, n, cs)
    ensures Shape(cs, base, brk)
    ensures Apart(cs, Block(End(bs[k]) - n, n))
  {
  }

  /** Carving removes exactly the units of the block that is handed out. */
  lemma CarveCovers(bs: seq<Block>, k: int, n: int, cs: seq<Block>)
    requires Separated(bs) && (forall i :: 0 <= i < |bs| ==> bs[i].size >= 0)
    requires 0 <= k < |bs| && 1 <= n <= bs[k].size && Carved(bs, k, n, cs)
    ensures forall u :: Covers(cs, u) <==> Covers(bs, u) && !Within(Block(End(bs[k]) - n, n), u)
    ensures forall u :: Within(Block(End(bs[k]) - n, n), u) ==> Covers(bs, u)
  {
    var b := Block(End(bs[k]) - n, n);
    forall u | Within(b, u)
      ensures Covers(bs, u)
    {
      assert Within(bs[k], u);
    }
    forall i, u | 0 <= i < |cs| && Within(cs[i], u)
      ensures Covers(bs, u) && !Within(b, u)
    {
      var j := if bs[k].size == n && i >= k then i + 1 else i;
      assert Within(bs[j], u);
      assert j < k ==> End(bs[j]) < bs[k].addr;
      assert j > k ==> End(bs[k]) < bs[j].addr;
    }
    forall i, u | 0 <= i < |bs| && Within(bs[i], u) && !Within(b, u)
      ensures Covers(cs, u)
    {
      assert Within(cs[if bs[k].size == n && i > k then i - 1 else i], u);
    }
  }

  /** Unlinking a block that is used up. */
  lemma UnlinkLinked(m: seq<Header>, m': seq<Header>, bs: seq<Block>, k: int, cs: seq<Block>, base: int, brk: int)
    requires Shape(bs, base, brk) && Linked(m, bs) && 0 < k < |bs| && Carved(bs, k, bs[k].size, cs)
    requires |m'| == |m| && LinkAt(m, bs, k - 1)
    requires forall x :: 0 <= x < |m| && x != bs[k - 1].addr ==> m'[x] == m[x]
    requires m'[bs[k - 1].addr] == Header(bs[Succ(k, |bs|)].addr, bs[k - 1].size)
    ensures Linked(m', cs)
  {
    ShapeOrder(bs, base, brk);
    assert LinkAt(m, bs, k);
    forall i | 0 <= i < |cs|
      ensures LinkAt(m', cs, i)
    {
      var j := if i >= k then i + 1 else i;
      assert LinkAt(m, bs, j);
      assert cs[i] == bs[j];
    }
  }

  /** Shrinking a block in place, the tail being handed out. */
  lemma ShrinkLinked(m: seq<Header>, m': seq<Header>, bs: seq<Block>, k: int, n: int, cs: seq<Block>,
                     base: int, brk: int)
    requires Shape(bs, base, brk) && Linked(m, bs) && 0 < k < |bs| && 1 <= n < bs[k].size && Carved(bs, k, n, cs)
    requires |m'| == |m| && LinkAt(m, bs, k)
    requires forall x :: 0 <= x < |m| && x != bs[k].addr && x != End(bs[k]) - n ==> m'[x] == m[x]
    requires m'[bs[k].addr] == m[bs[k].addr].(size := bs[k].size - n)
    ensures Linked(m', cs)
  {
    forall i | 0 <= i < |cs|
      ensures LinkAt(m', cs, i)
    {
      assert LinkAt(m, bs, i);
      assert i < k ==> End(bs[i]) < bs[k].addr;
      assert i > k ==> End(bs[k]) < bs[i].addr;
    }
  }
}
