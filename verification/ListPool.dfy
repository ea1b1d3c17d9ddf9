/** Pooled intrusive lists of the kernel: every queue entry is a node of one static pool of
    256 nodes, and the nodes not in use form a list of the same kind. Nodes are named by
    their place in memory: the pool first, then the head of its free list, then the heads of
    the clients. */
module ListPool {
  import opened Counting
  import opened Options
  import opened Queues

  const LIST_NUM := 256
  const FREE := LIST_NUM

  datatype Cell = Cell(ptr: int, prev: int, next: int)

  // ----- rings -----

  /** The ring of head h in prev direction; positions -1 and |q| are the head. */
  ghost function At(h: int, q: seq<int>, i: int): int {
    if 0 <= i < |q| then q[i] else h
  }

  ghost predicate Pair(m: seq<Cell>, h: int, q: seq<int>, i: int) {
    var a, b := At(h, q, i), At(h, q, i + 1);
    0 <= a < |m| && 0 <= b < |m| && m[a].prev == b && m[b].next == a
  }

  /** h heads a ring whose entries, oldest first, are q; prev and next are inverse all round. */
  ghost predicate Ring(m: seq<Cell>, h: int, q: seq<int>) {
    forall i :: -1 <= i < |q| ==> Pair(m, h, q, i)
  }

  ghost predicate Distinct(h: int, q: seq<int>) {
    && (forall i :: 0 <= i < |q| ==> q[i] != h)
    && (forall i, j :: 0 <= i < j < |q| ==> q[i] != q[j])
  }

  /** Same links, apart from the given cells. */
  ghost predicate LinksKept(m: seq<Cell>, m': seq<Cell>, except: set<int>) {
    && |m'| == |m|
    && (forall n :: 0 <= n < |m| && n !in except ==> m'[n].prev == m[n].prev && m'[n].next == m[n].next)
  }

  ghost predicate PtrsKept(m: seq<Cell>, m': seq<Cell>) {
    |m'| == |m| && forall n :: 0 <= n < |m| ==> m'[n].ptr == m[n].ptr
  }

  lemma RingKept(m: seq<Cell>, m': seq<Cell>, except: set<int>, h: int, q: seq<int>)
    requires Ring(m, h, q) && LinksKept(m, m', except)
    requires h !in except && forall i :: 0 <= i < |q| ==> q[i] !in except
    ensures Ring(m', h, q)
  {
    forall i | -1 <= i < |q|
      ensures Pair(m', h, q, i)
    {
      assert Pair(m, h, q, i);
    }
  }

  /** The links after l has been put next to h. */
  ghost predicate AddedLinks(m: seq<Cell>, m': seq<Cell>, h: int, l: int)
    requires 0 <= h < |m| && 0 <= l < |m| && 0 <= m[h].next < |m|
  {
    var y := m[h].next;
    && LinksKept(m, m', {h, l, y})
    && m'[l].prev == h && m'[l].next == y && m'[y].prev == l && m'[h].next == l
    && (y != h ==> m'[h].prev == m[h].prev && m'[y].next == m[y].next)
  }

  lemma AddedRing(m: seq<Cell>, m': seq<Cell>, h: int, q: seq<int>, l: int)
    requires Ring(m, h, q) && Distinct(h, q) && l != h && (forall i :: 0 <= i < |q| ==> q[i] != l)
    requires 0 <= l < |m| && Pair(m, h, q, |q| - 1) && AddedLinks(m, m', h, l)
    ensures Ring(m', h, q + [l])
  {
    forall i | -1 <= i <= |q|
      ensures Pair(m', h, q + [l], i)
    {
      assert i < |q| ==> Pair(m, h, q, i);
    }
  }

  /** The links after l has been taken out of its ring. */
  ghost predicate RemovedLinks(m: seq<Cell>, m': seq<Cell>, l: int)
    requires 0 <= l < |m| && 0 <= m[l].next < |m| && 0 <= m[l].prev < |m|
  {
    var x, y := m[l].prev, m[l].next;
    && LinksKept(m, m', {x, y})
    && m'[x].next == y && m'[y].prev == x
    && (x != y ==> m'[x].prev == m[x].prev && m'[y].next == m[y].next)
  }

  lemma RemovedRing(m: seq<Cell>, m': seq<Cell>, h: int, q: seq<int>, k: int)
    requires Ring(m, h, q) && Distinct(h, q) && 0 <= k < |q|
    requires Pair(m, h, q, k - 1) && Pair(m, h, q, k) && RemovedLinks(m, m', q[k])
    ensures Ring(m', h, Without(q, k))
  {
    forall i | -1 <= i < |q| - 1
      ensures Pair(m', h, Without(q, k), i)
    {
      assert Pair(m, h, q, i) && Pair(m, h, q, i + 1);
    }
  }

  // ----- families of queues over one pool -----

  /** Every queued node is a pool node, in one place only, and no head is a pool node. */
  ghost predicate Disjoint(queues: map<int, seq<int>>) {
    && (forall h :: h in queues ==> LIST_NUM <= h)
    && (forall h, i :: h in queues && 0 <= i < |queues[h]| ==> 0 <= queues[h][i] < LIST_NUM)
    && (forall h, g, i, j :: h in queues && g in queues && 0 <= i < |queues[h]| && 0 <= j < |queues[g]| ==>
          queues[h][i] == queues[g][j] ==> h == g && i == j)
  }

  /** Every pool node is in some queue. */
  ghost predicate Complete(queues: map<int, seq<int>>) {
    forall n :: 0 <= n < LIST_NUM ==> Queued(queues, n)
  }

  ghost predicate Queued(queues: map<int, seq<int>>, n: int) {
    exists h, i :: h in queues && 0 <= i < |queues[h]| && queues[h][i] == n
  }

  /** The 256 nodes are split between the queues, the free list among them. */
  ghost predicate Partition(queues: map<int, seq<int>>) {
    Disjoint(queues) && (if queues == map[] then true else FREE in queues && Complete(queues))
  }

  type Family = q: map<int, seq<int>> | Partition(q) ghost witness map[]

  /** The node at position k of one queue moves to the young end of another. */
  ghost function Moved(queues: map<int, seq<int>>, from: int, k: int, to: int): map<int, seq<int>>
    requires from in queues && to in queues && from != to && 0 <= k < |queues[from]|
  {
    queues[from := Without(queues[from], k)][to := queues[to] + [queues[from][k]]]
  }

  /** Where the entry i of queue h was before the move. */
  ghost function Origin(queues: map<int, seq<int>>, from: int, k: int, to: int, h: int, i: int): (int, int)
    requires to in queues
  {
    if h == to && i == |queues[to]| then (from, k) else if h == from && i >= k then (h, i + 1) else (h, i)
  }

  lemma MovedEntry(queues: map<int, seq<int>>, from: int, k: int, to: int, h: int, i: int)
    requires from in queues && to in queues && from != to && 0 <= k < |queues[from]|
    requires h in queues && 0 <= i < |Moved(queues, from, k, to)[h]|
    ensures var (g, j) := Origin(queues, from, k, to, h, i);
            g in queues && 0 <= j < |queues[g]| && Moved(queues, from, k, to)[h][i] == queues[g][j]
  {
  }

  lemma MovedDisjoint(queues: map<int, seq<int>>, from: int, k: int, to: int)
    requires Disjoint(queues)
    requires from in queues && to in queues && from != to && 0 <= k < |queues[from]|
    ensures Disjoint(Moved(queues, from, k, to))
  {
    var m := Moved(queues, from, k, to);
    forall h, i | h in m && 0 <= i < |m[h]|
      ensures 0 <= m[h][i] < LIST_NUM
    {
      MovedEntry(queues, from, k, to, h, i);
    }
    forall h, g, i, j | h in m && g in m && 0 <= i < |m[h]| && 0 <= j < |m[g]| && m[h][i] == m[g][j]
      ensures h == g && i == j
    {
      MovedEntry(queues, from, k, to, h, i);
      MovedEntry(queues, from, k, to, g, j);
    }
  }

  lemma MovedComplete(queues: map<int, seq<int>>, from: int, k: int, to: int)
    requires Complete(queues)
    requires from in queues && to in queues && from != to && 0 <= k < |queues[from]|
    ensures Complete(Moved(queues, from, k, to))
  {
    var m := Moved(queues, from, k, to);
    forall n | 0 <= n < LIST_NUM
      ensures Queued(m, n)
    {
      assert Queued(queues, n);
      var h, i :| h in queues && 0 <= i < |queues[h]| && queues[h][i] == n;
      if h == from && i == k {
        assert m[to][|queues[to]|] == n;
      } else {
        assert m[h][if h == from && i > k then i - 1 else i] == n;
      }
    }
  }

  /** Moving a node keeps the pool partitioned. */
  lemma MovedPartition(queues: map<int, seq<int>>, from: int, k: int, to: int)
    requires Partition(queues)
    requires from in queues && to in queues && from != to && 0 <= k < |queues[from]|
    ensures Partition(Moved(queues, from, k, to))
  {
    MovedDisjoint(queues, from, k, to);
    MovedComplete(queues, from, k, to);
    assert from in Moved(queues, from, k, to);
  }

  // ----- the pool in memory -----

  ghost predicate Rings(m: seq<Cell>, queues: map<int, seq<int>>) {
    forall h :: h in queues ==> Ring(m, h, queues[h])
  }

  /** Once a node is out of one ring it can be linked into another. */
  lemma MoveReady(m: seq<Cell>, m1: seq<Cell>, queues: Family, from: int, k: int, to: int)
    requires Rings(m, queues) && from in queues && to in queues && from != to && 0 <= k < |queues[from]|
    requires Pair(m, from, queues[from], k - 1) && Pair(m, from, queues[from], k)
    requires RemovedLinks(m, m1, queues[from][k])
    ensures Pair(m1, to, queues[to], |queues[to]| - 1) && m1[to].next != queues[from][k] && queues[from][k] != to
  {
    var l := queues[from][k];
    assert m[l].prev == At(from, queues[from], k + 1) && m[l].next == At(from, queues[from], k - 1);
    RingKept(m, m1, {m[l].prev, m[l].next}, to, queues[to]);
    assert Pair(m1, to, queues[to], |queues[to]| - 1);
  }

  /** Unlinking a node and linking it elsewhere, seen from all queues. */
  lemma MoveRings(m: seq<Cell>, m1: seq<Cell>, m2: seq<Cell>, queues: Family, from: int, k: int, to: int)
    requires Rings(m, queues) && from in queues && to in queues && from != to && 0 <= k < |queues[from]|
    requires Pair(m, from, queues[from], k - 1) && Pair(m, from, queues[from], k)
    requires RemovedLinks(m, m1, queues[from][k])
    requires Pair(m1, to, queues[to], |queues[to]| - 1) && AddedLinks(m1, m2, to, queues[from][k])
    ensures Rings(m2, Moved(queues, from, k, to))
  {
    var l, after := queues[from][k], Moved(queues, from, k, to);
    forall h | h in after
      ensures Ring(m2, h, after[h])
    {
      MoveRing(m, m1, m2, queues, from, k, to, h);
    }
  }

  /** The ring that loses the node. */
  lemma MoveFrom(m: seq<Cell>, m1: seq<Cell>, m2: seq<Cell>, queues: Family, from: int, k: int, to: int)
    requires Rings(m, queues) && from in queues && to in queues && from != to && 0 <= k < |queues[from]|
    requires Pair(m, from, queues[from], k - 1) && Pair(m, from, queues[from], k)
    requires RemovedLinks(m, m1, queues[from][k])
    requires Pair(m1, to, queues[to], |queues[to]| - 1) && AddedLinks(m1, m2, to, queues[from][k])
    ensures Ring(m2, from, Without(queues[from], k))
  {
    var l, z := queues[from][k], m1[to].next;
    assert z == At(to, queues[to], |queues[to]| - 1);
    RemovedRing(m, m1, from, queues[from], k);
    RingKept(m1, m2, {to, l, z}, from, Without(queues[from], k));
  }

  lemma MoveRing(m: seq<Cell>, m1: seq<Cell>, m2: seq<Cell>, queues: Family, from: int, k: int, to: int, h: int)
    requires Rings(m, queues) && from in queues && to in queues && from != to && 0 <= k < |queues[from]|
    requires Pair(m, from, queues[from], k - 1) && Pair(m, from, queues[from], k)
    requires RemovedLinks(m, m1, queues[from][k])
    requires Pair(m1, to, queues[to], |queues[to]| - 1) && AddedLinks(m1, m2, to, queues[from][k])
    requires h in queues
    ensures Ring(m2, h, Moved(queues, from, k, to)[h])
  {
    var l := queues[from][k];
    if h == from {
      MoveFrom(m, m1, m2, queues, from, k, to);
    } else {
      var x, y, z := m[l].prev, m[l].next, m1[to].next;
      assert x == At(from, queues[from], k + 1) && y == At(from, queues[from], k - 1);
      RingKept(m, m1, {x, y}, h, queues[h]);
      if h == to {
        AddedRing(m1, m2, to, queues[to], l);
      } else {
        assert z == At(to, queues[to], |queues[to]| - 1);
        RingKept(m1, m2, {to, l, z}, h, queues[h]);
      }
    }
  }

  // ----- what a client sees -----

  /** The values stored in a run of nodes. */
  ghost function Values(m: seq<Cell>, q: seq<int>): seq<int>
    requires forall i :: 0 <= i < |q| ==> 0 <= q[i] < |m|
  {
    seq(|q|, i requires 0 <= i < |q| => m[q[i]].ptr)
  }

  ghost function Contents(m: seq<Cell>, queues: Family): map<int, seq<int>>
    requires |m| >= LIST_NUM
  {
    map h | h in queues && h != FREE :: Values(m, queues[h])
  }

  lemma EnqueueContents(m: seq<Cell>, m': seq<Cell>, queues: Family, h: int, v: int)
    requires LIST_NUM <= |m| == |m'| && FREE in queues && h in queues && h != FREE && queues[FREE] != []
    requires Partition(Moved(queues, FREE, 0, h)) && m'[queues[FREE][0]].ptr == v
    requires forall n :: 0 <= n < LIST_NUM && n != queues[FREE][0] ==> m'[n].ptr == m[n].ptr
    ensures Contents(m', Moved(queues, FREE, 0, h)) == Apply(Contents(m, queues), Enqueue(h, v))
  {
    assert forall g, i :: g in queues && g != FREE && 0 <= i < |queues[g]| ==> queues[g][i] != queues[FREE][0];
    assert Values(m', queues[h] + [queues[FREE][0]]) == Values(m, queues[h]) + [v];
    assert forall g :: g in queues && g != FREE ==> Values(m', queues[g]) == Values(m, queues[g]);
  }

  lemma ReleaseContents(m: seq<Cell>, m': seq<Cell>, queues: Family, h: int, k: int)
    requires LIST_NUM <= |m| == |m'| && FREE in queues && h in queues && h != FREE && 0 <= k < |queues[h]|
    requires Partition(Moved(queues, h, k, FREE))
    requires forall n :: 0 <= n < LIST_NUM ==> m'[n].ptr == m[n].ptr
    ensures Contents(m', Moved(queues, h, k, FREE)) == Apply(Contents(m, queues), Remove(h, k))
  {
    assert Values(m', Without(queues[h], k)) == Without(Values(m, queues[h]), k);
    assert forall g :: g in queues && g != FREE ==> Values(m', queues[g]) == Values(m, queues[g]);
  }

  lemma DequeueContents(m: seq<Cell>, m': seq<Cell>, queues: Family, h: int)
    requires LIST_NUM <= |m| == |m'| && FREE in queues && h in queues && h != FREE && queues[h] != []
    requires Partition(Moved(queues, h, 0, FREE))
    requires forall n :: 0 <= n < LIST_NUM ==> m'[n].ptr == m[n].ptr
    ensures Contents(m', Moved(queues, h, 0, FREE)) == Apply(Contents(m, queues), Dequeue(h))
    ensures Contents(m, queues)[h] != [] && Contents(m, queues)[h][0] == m[queues[h][0]].ptr
  {
    ReleaseContents(m, m', queues, h, 0);
    assert Without(Contents(m, queues)[h], 0) == Contents(m, queues)[h][1..];
  }

  /** What the move of a node in memory comes to. */
  ghost predicate MoveDone(m: seq<Cell>, m1: seq<Cell>, m2: seq<Cell>, queues: Family, from: int, k: int, to: int) {
    && |m2| == |m1| == |m|
    && Rings(m, queues) && from in queues && to in queues && from != to && 0 <= k < |queues[from]|
    && Pair(m, from, queues[from], k - 1) && Pair(m, from, queues[from], k)
    && RemovedLinks(m, m1, queues[from][k])
    && Pair(m1, to, queues[to], |queues[to]| - 1) && AddedLinks(m1, m2, to, queues[from][k])
  }

  lemma Enqueued(m: seq<Cell>, m1: seq<Cell>, m2: seq<Cell>, queues: Family, list: int, v: int)
    requires LIST_NUM <= |m| && list != FREE && MoveDone(m, m1, m2, queues, FREE, 0, list)
    requires PtrsKept(m1, m2) && m1[queues[FREE][0]].ptr == v
    requires forall n :: 0 <= n < LIST_NUM && n != queues[FREE][0] ==> m1[n].ptr == m[n].ptr
    ensures Partition(Moved(queues, FREE, 0, list)) && Rings(m2, Moved(queues, FREE, 0, list))
    ensures Contents(m2, Moved(queues, FREE, 0, list)) == Apply(Contents(m, queues), Enqueue(list, v))
  {
    MoveRings(m, m1, m2, queues, FREE, 0, list);
    MovedPartition(queues, FREE, 0, list);
    EnqueueContents(m, m2, queues, list, v);
  }

  lemma Released(m: seq<Cell>, m1: seq<Cell>, m2: seq<Cell>, queues: Family, h: int, k: int)
    requires LIST_NUM <= |m| && h != FREE && MoveDone(m, m1, m2, queues, h, k, FREE) && PtrsKept(m, m1) && PtrsKept(m1, m2)
    ensures Partition(Moved(queues, h, k, FREE)) && Rings(m2, Moved(queues, h, k, FREE))
    ensures Contents(m2, Moved(queues, h, k, FREE)) == Apply(Contents(m, queues), Remove(h, k))
  {
    MoveRings(m, m1, m2, queues, h, k, FREE);
    MovedPartition(queues, h, k, FREE);
    ReleaseContents(m, m2, queues, h, k);
  }

  lemma Dequeued(m: seq<Cell>, m1: seq<Cell>, m2: seq<Cell>, queues: Family, h: int)
    requires LIST_NUM <= |m| && h != FREE && MoveDone(m, m1, m2, queues, h, 0, FREE) && PtrsKept(m, m1) && PtrsKept(m1, m2)
    ensures Partition(Moved(queues, h, 0, FREE)) && Rings(m2, Moved(queues, h, 0, FREE))
    ensures Contents(m2, Moved(queues, h, 0, FREE)) == Apply(Contents(m, queues), Dequeue(h))
    ensures Contents(m, queues)[h] != [] && Contents(m, queues)[h][0] == m[queues[h][0]].ptr
  {
    MoveRings(m, m1, m2, queues, h, 0, FREE);
    MovedPartition(queues, h, 0, FREE);
    DequeueContents(m, m2, queues, h);
  }

  class Pool {
    const mem: array<Cell>
    var inited: bool
    ghost var queues: Family   // entries of each head in use, oldest first

    ghost predicate Valid()
      reads this, mem
    {
      mem.Length > LIST_NUM && Rings(mem[..], queues) && (inited <==> queues != map[])
    }

    constructor (memory: array<Cell>)
      requires memory.Length > LIST_NUM
      ensures Valid() && mem == memory && !inited && queues == map[]
    {
      mem, inited, queues := memory, false, map[];
    }

    ghost function View(): map<int, seq<int>>
      requires mem.Length > LIST_NUM
      reads this, mem
    {
      Contents(mem[..], queues)
    }

    method AddNext(list: int, ptr: int)
      requires 0 <= list < mem.Length && 0 <= ptr < mem.Length && 0 <= mem[list].next < mem.Length && ptr != list
      requires ptr != mem[list].next
      modifies mem
      ensures AddedLinks(old(mem[..]), mem[..], list, ptr) && PtrsKept(old(mem[..]), mem[..])
    {
      mem[ptr] := mem[ptr].(prev := list);
      mem[ptr] := mem[ptr].(next := mem[list].next);
      mem[mem[ptr].prev] := mem[mem[ptr].prev].(next := ptr);
      mem[mem[ptr].next] := mem[mem[ptr].next].(prev := ptr);
    }

    method RemovePrev(list: int) returns (ptr: int)
      requires 0 <= list < mem.Length && 0 <= mem[list].prev < mem.Length
      requires 0 <= mem[mem[list].prev].next < mem.Length && 0 <= mem[mem[list].prev].prev < mem.Length
      requires mem[mem[list].prev].prev != mem[list].prev
      modifies mem
      ensures ptr == old(mem[list].prev) && RemovedLinks(old(mem[..]), mem[..], ptr) && PtrsKept(old(mem[..]), mem[..])
    {
      ptr := mem[list].prev;
      mem[mem[ptr].prev] := mem[mem[ptr].prev].(next := mem[ptr].next);
      mem[mem[ptr].next] := mem[mem[ptr].next].(prev := mem[ptr].prev);
    }

    method IsEmpty(list: int) returns (e: bool)
      requires Valid() && list in queues
      ensures e <==> queues[list] == []
    {
      PairsAt(list, |queues[list]|);
      e := list == mem[list].next;
    }

    lemma PairsAt(h: int, k: int)
      requires Valid() && h in queues && 0 <= k <= |queues[h]|
      ensures Pair(mem[..], h, queues[h], k - 1) && Pair(mem[..], h, queues[h], |queues[h]| - 1)
      ensures k < |queues[h]| ==> Pair(mem[..], h, queues[h], k)
    {
      assert Ring(mem[..], h, queues[h]);
    }

    /** Takes a node from the free list for the value and makes it the youngest entry; the
        source asserts that the pool is not used up. */
    method Enqueue(list: int, ptr: int) returns (l: int)
      requires Valid() && list in queues && list != FREE && queues[FREE] != []
      modifies this`queues, mem
      ensures Valid() && l == old(queues)[FREE][0] && queues == Moved(old(queues), FREE, 0, list)
      ensures View() == Apply(old(View()), Op.Enqueue(list, ptr))
    {
      PairsAt(FREE, 0);
      ghost var m0, q := mem[..], queues;
      l := RemovePrev(FREE);
      mem[l] := mem[l].(ptr := ptr);
      ghost var m1 := mem[..];
      MoveReady(m0, m1, q, FREE, 0, list);
      AddNext(list, l);
      Enqueued(m0, m1, mem[..], q, list, ptr);
      queues := Moved(q, FREE, 0, list);
    }

    /** Takes the oldest entry, gives its node back to the pool and returns its value. */
    method Dequeue(list: int) returns (r: Option<int>)
      requires Valid() && list in queues && list != FREE
      modifies this`queues, mem
      ensures Valid() && View() == Apply(old(View()), Op.Dequeue(list))
      ensures r == if old(View())[list] == [] then None else Some(old(View())[list][0])
      ensures queues == if old(queues)[list] == [] then old(queues) else Moved(old(queues), list, 0, FREE)
    {
      var e := IsEmpty(list);
      if e {
        return None;
      }
      PairsAt(list, 0);
      ghost var m0, q := mem[..], queues;
      var l := RemovePrev(list);
      r := Some(mem[l].ptr);
      ghost var m1 := mem[..];
      MoveReady(m0, m1, q, list, 0, FREE);
      AddNext(FREE, l);
      Dequeued(m0, m1, mem[..], q, list);
      queues := Moved(q, list, 0, FREE);
    }

    /** Takes an entry out of whatever client queue it is in; the head passed as first
        argument plays no part. */
    method Remove(list: int, entry: int, ghost h: int, ghost k: int)
      requires Valid() && h in queues && h != FREE && 0 <= k < |queues[h]| && queues[h][k] == entry
      modifies this`queues, mem
      ensures Valid() && View() == Apply(old(View()), Op.Remove(h, k)) && queues == Moved(old(queues), h, k, FREE)
    {
      PairsAt(h, k);
      ghost var m0, q := mem[..], queues;
      mem[mem[entry].next] := mem[mem[entry].next].(prev := mem[entry].prev);
      mem[mem[entry].prev] := mem[mem[entry].prev].(next := mem[entry].next);
      ghost var m1 := mem[..];
      MoveReady(m0, m1, q, h, k, FREE);
      AddNext(FREE, entry);
      Released(m0, m1, mem[..], q, h, k);
      queues := Moved(q, h, k, FREE);
    }

    /** The first call of any client: all nodes go to the free list. */
    method InitList()
      requires Valid() && !inited
      modifies this, mem
      ensures Valid() && inited && queues == map[FREE := seq(LIST_NUM, i => i)] && View() == map[]
    {
      inited := true;
      mem[FREE] := Cell(mem[FREE].ptr, FREE, FREE);
      ghost var q: seq<int> := [];
      assert Pair(mem[..], FREE, q, -1);
      for i := 0 to LIST_NUM
        invariant |q| == i && (forall j :: 0 <= j < i ==> q[j] == j) && Ring(mem[..], FREE, q)
        invariant unchanged(`queues) && inited
      {
        ghost var m := mem[..];
        assert Pair(m, FREE, q, i - 1);
        AddNext(FREE, i);
        AddedRing(m, mem[..], FREE, q, i);
        q := q + [i];
      }
      ghost var all := map[FREE := seq(LIST_NUM, i => i)];
      assert q == all[FREE];
      forall n | 0 <= n < LIST_NUM
        ensures Queued(all, n)
      {
        assert all[FREE][n] == n;
      }
      queues := all;
    }

    /** Makes a head usable that is new or has no entries. */
    method Init(list: int)
      requires Valid() && LIST_NUM < list < mem.Length && (list in queues ==> queues[list] == [])
      modifies this, mem
      ensures Valid() && inited && View() == Apply(old(View()), Op.Init(list))
      ensures queues == (if old(inited) then old(queues) else map[FREE := seq(LIST_NUM, i => i)])[list := []]
    {
      if !inited {
        InitList();
      }
      ghost var m := mem[..];
      mem[list] := Cell(mem[list].ptr, list, list);
      InitRings(m, mem[..], queues, list);
      queues := queues[list := []];
    }

    /** One operation of a client. */
    method Serve(op: Op<int>, c: Client) returns (c': Client)
      requires Valid() && c.nodes == queues - {FREE} && Allowed(View(), op)
      requires (op.Init? ==> LIST_NUM < op.h < mem.Length) && (op.Enqueue? ==> FreeLeft(queues) > 0)
      modifies this, mem
      ensures Valid() && c'.nodes == queues - {FREE} && View() == Apply(old(View()), op)
      ensures c'.got == Delivered(old(View()), c.got, op)
      ensures FreeLeft(queues) == FreeLeft(old(queues)) - Growth(old(View()), op)
    {
      c' := c;
      ghost var q := queues;
      match op {
        case Init(h) =>
          Init(h);
          c' := c.(nodes := c.nodes[h := []]);
          InitNodes(q, h);
        case Enqueue(h, v) =>
          var l := Enqueue(h, v);
          c' := c.(nodes := c.nodes[h := c.nodes[h] + [l]]);
          EnqueuedNodes(q, h);
        case Dequeue(h) =>
          var r := Dequeue(h);
          if r.Some? {
            c' := Client(c.nodes[h := c.nodes[h][1..]], c.got[h := Lookup(c.got, h) + [r.value]]);
            ReleasedNodes(q, h, 0);
          }
        case Remove(h, k) =>
          Remove(h, c.nodes[h][k], h, k);
          c' := c.(nodes := c.nodes[h := Without(c.nodes[h], k)]);
          ReleasedNodes(q, h, k);
      }
    }

    /** Any run of operations from the start, as long as there are nodes for its values: heads
        deliver what the queues of the specification deliver, and the rest waits in memory. */
    method ServeAll(ops: seq<Op<int>>) returns (got: map<int, seq<int>>)
      requires Valid() && queues == map[] && Run(ops).Some? && Fits(ops, mem.Length)
      modifies this, mem
      ensures Valid() && View() == Run(ops).value.c && got == Run(ops).value.got
      ensures FreeLeft(queues) == LIST_NUM - Waiting(ops)
    {
      var c := Client(map[], map[]);
      ghost var done: seq<Op<int>> := [];
      for i := 0 to |ops|
        invariant Valid() && c.nodes == queues - {FREE} && done == ops[..i] && Run(done).Some?
        invariant View() == Run(done).value.c && c.got == Run(done).value.got
        invariant FreeLeft(queues) == LIST_NUM - Waiting(done)
      {
        RunGoesOn(ops, mem.Length, done, ops[i]);
        c := Serve(ops[i], c);
        done := done + [ops[i]];
      }
      assert done == ops;
      got := c.got;
    }
  }

  // ----- runs -----

  /** What the clients keep: the nodes that list_enqueue gave them, as long as they wait, and the
      values that list_dequeue gave them. */
  datatype Client = Client(nodes: map<int, seq<int>>, got: map<int, seq<int>>)

  ghost function FreeLeft(queues: Family): nat {
    if queues == map[] then LIST_NUM else |queues[FREE]|
  }

  /** Heads are cells behind the pool, and a value more comes only while fewer than 256 wait. */
  ghost predicate Fits(ops: seq<Op<int>>, size: nat)
    requires Run(ops).Some?
  {
    ops != [] ==>
      var before, op := ops[..|ops| - 1], ops[|ops| - 1];
      && Fits(before, size)
      && (op.Init? ==> LIST_NUM < op.h < size) && (op.Enqueue? ==> Waiting(before) < LIST_NUM)
  }

  lemma InitNodes(queues: Family, h: int)
    requires h != FREE && h >= LIST_NUM && Partition(queues) && (h in queues ==> queues[h] == [])
    ensures var q := if queues == map[] then map[FREE := seq(LIST_NUM, i => i)] else queues;
            q[h := []] - {FREE} == (queues - {FREE})[h := []]
  {
  }

  lemma EnqueuedNodes(queues: Family, h: int)
    requires FREE in queues && h in queues && h != FREE && queues[FREE] != []
    ensures Moved(queues, FREE, 0, h) - {FREE} == (queues - {FREE})[h := queues[h] + [queues[FREE][0]]]
    ensures |Moved(queues, FREE, 0, h)[FREE]| == |queues[FREE]| - 1
  {
  }

  lemma ReleasedNodes(queues: Family, h: int, k: int)
    requires FREE in queues && h in queues && h != FREE && 0 <= k < |queues[h]|
    ensures Moved(queues, h, k, FREE) - {FREE} == (queues - {FREE})[h := Without(queues[h], k)]
    ensures |Moved(queues, h, k, FREE)[FREE]| == |queues[FREE]| + 1
    ensures Without(queues[h], 0) == queues[h][1..]
  {
  }

  lemma {:induction false} FitsBefore(ops: seq<Op<int>>, size: nat, i: nat)
    requires i <= |ops| && Run(ops).Some? && Fits(ops, size)
    ensures Run(ops[..i]).Some? && Fits(ops[..i], size)
  {
    if i == |ops| {
      assert ops[..i] == ops;
    } else {
      FitsBefore(ops[..|ops| - 1], size, i);
      assert ops[..|ops| - 1][..i] == ops[..i];
    }
  }

  lemma RunGoesOn(ops: seq<Op<int>>, size: nat, done: seq<Op<int>>, op: Op<int>)
    requires Run(ops).Some? && Fits(ops, size) && |done| < |ops| && done == ops[..|done|] && op == ops[|done|]
    ensures Run(done).Some? && Allowed(Run(done).value.c, op)
    ensures Run(done + [op]) == Some(Record(Run(done).value, op))
    ensures Waiting(done + [op]) == Waiting(done) + Growth(Run(done).value.c, op)
    ensures (op.Init? ==> LIST_NUM < op.h < size) && (op.Enqueue? ==> Waiting(done) < LIST_NUM)
  {
    FitsBefore(ops, size, |done| + 1);
    assert ops[..|done| + 1] == done + [op];
    assert (done + [op])[..|done|] == done;
  }

  lemma InitRings(m: seq<Cell>, m': seq<Cell>, queues: Family, h: int)
    requires Rings(m, queues) && LIST_NUM < h < |m| && FREE in queues && (h in queues ==> queues[h] == [])
    requires m' == m[h := Cell(m[h].ptr, h, h)]
    ensures Partition(queues[h := []]) && Rings(m', queues[h := []])
    ensures Contents(m', queues[h := []]) == Contents(m, queues)[h := []]
  {
    var more := queues[h := []];
    forall n | 0 <= n < LIST_NUM
      ensures Queued(more, n)
    {
      assert Queued(queues, n);
      var g, i :| g in queues && 0 <= i < |queues[g]| && queues[g][i] == n;
      assert more[g][i] == n;
    }
    forall g | g in more
      ensures Ring(m', g, more[g])
    {
      if g == h {
        assert Pair(m', h, [], -1);
      } else {
        RingKept(m, m', {h}, g, queues[g]);
      }
    }
    assert forall g :: g in queues && g != FREE ==> Values(m', queues[g]) == Values(m, queues[g]);
    assert Values(m', []) == [];
  }

  ghost function ClientNodes(queues: map<int, seq<int>>): set<int> {
    set n | n in Below(LIST_NUM) && UsedByClient(queues, n)
  }

  /** The free list holds exactly the nodes that no client uses: none is lost or doubled. */
  lemma FreeNodes(queues: Family)
    requires FREE in queues
    ensures forall n :: n in ClientNodes(queues) ==> n !in queues[FREE]
    ensures |queues[FREE]| + |ClientNodes(queues)| == LIST_NUM
  {
    FreeOrUsed(queues);
    SplitSizes(queues[FREE], ClientNodes(queues), LIST_NUM);
  }

  lemma SplitSizes(q: seq<int>, used: set<int>, n: nat)
    requires used <= Below(n) && (forall k :: k in q ==> 0 <= k < n)
    requires (forall i, j :: 0 <= i < j < |q| ==> q[i] != q[j])
    requires forall k :: 0 <= k < n ==> (k in q <==> k !in used)
    ensures |q| + |used| == n
  {
    var free := set k | k in q;
    assert free + used == Below(n);
    assert |free + used| == |free| + |used|;
    DistinctSize(q);
  }

  lemma FreeOrUsed(queues: Family)
    requires FREE in queues
    ensures forall n :: 0 <= n < LIST_NUM ==> (n in queues[FREE] <==> n !in ClientNodes(queues))
    ensures forall n :: n in queues[FREE] ==> 0 <= n < LIST_NUM
  {
    forall n | 0 <= n < LIST_NUM
      ensures n in queues[FREE] <==> n !in ClientNodes(queues)
    {
      FreeXorUsed(queues, n);
    }
  }

  lemma FreeXorUsed(queues: Family, n: int)
    requires FREE in queues && 0 <= n < LIST_NUM
    ensures n in queues[FREE] <==> !UsedByClient(queues, n)
  {
    assert Queued(queues, n);
  }

  ghost predicate UsedByClient(queues: map<int, seq<int>>, n: int) {
    exists h, i :: h in queues && h != FREE && 0 <= i < |queues[h]| && queues[h][i] == n
  }

  lemma {:induction false} DistinctSize(q: seq<int>)
    requires forall i, j :: 0 <= i < j < |q| ==> q[i] != q[j]
    ensures |set n | n in q| == |q|
  {
    if q != [] {
      DistinctSize(q[1..]);
      assert (set n | n in q) == {q[0]} + (set n | n in q[1..]);
    }
  }
}
