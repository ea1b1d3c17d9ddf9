/** The user heap: malloc, free and morecore over header units in memory. Addresses count
    units of 8 bytes. The functions of HeapSpec say what each call does. */
module Heap {
  import opened FreeList
  import opened HeapSpec
  import opened Options

  const NULL := 0

  /** Memory holds the heap: the free list is linked in it, and each block in use has its size
      in its header. */
  ghost predicate Rep(m: seq<Header>, s: State) {
    s.brk <= |m| && Linked(m, s.bs) && forall a :: a in s.live ==> SizeAt(m, a, s.live[a])
  }

  ghost predicate SizeAt(m: seq<Header>, a: int, n: int) {
    0 <= a < |m| && m[a].size == n
  }

  /** Every unit of the given blocks holds the same in both memories. */
  ghost predicate Untouched(m: seq<Header>, m': seq<Header>, live: map<int, int>) {
    |m| == |m'| &&
    forall a, u :: a in live && Within(Block(a, live[a]), u) && 0 <= u < |m| ==> m'[u] == m[u]
  }

  lemma UntouchedTrans(m: seq<Header>, m1: seq<Header>, m2: seq<Header>, live: map<int, int>)
    requires Untouched(m, m1, live) && Untouched(m1, m2, live)
    ensures Untouched(m, m2, live)
  {
  }

  lemma UntouchedAmong(m: seq<Header>, m': seq<Header>, some: map<int, int>, all: map<int, int>)
    requires Untouched(m, m', all) && Among(some, all)
    ensures Untouched(m, m', some)
  {
  }

  /** Memory over a first call, which spares the blocks first, and those behind it. */
  lemma UntouchedOn(m: seq<Header>, m1: seq<Header>, m2: seq<Header>, first: map<int, int>, live: map<int, int>,
                    qs: seq<Request>)
    requires Untouched(m, m1, first) && Untouched(m1, m2, Kept(live, qs)) && Among(first, live)
    ensures Untouched(m, m2, Kept(first, qs))
  {
    KeptAmong(first, live, qs);
    UntouchedAmong(m, m1, Kept(first, qs), first);
    UntouchedAmong(m1, m2, Kept(first, qs), Kept(live, qs));
    UntouchedTrans(m, m1, m2, Kept(first, qs));
  }

  /** What sbrk answers lies in the memory there is. */
  predicate InMemory(q: Request, size: nat) {
    q.Malloc? && q.grant.Some? ==> q.grant.value + GrowUnits(Units(q.nbytes)) <= size
  }

  lemma LinksAt(m: seq<Header>, s: State, k: int)
    requires Rep(m, s) && 0 <= k < |s.bs|
    ensures LinkAt(m, s.bs, k) && LinkAt(m, s.bs, Succ(k, |s.bs|))
  {
  }

  lemma SpliceReady(m: seq<Header>, s: State, bp: int)
    requires Usable(s, bp) && Rep(m, s)
    ensures var t := FreeIndex(s, bp);
            && LinkAt(m, s.bs, t) && LinkAt(m, s.bs, Succ(t, |s.bs|)) && SizeAt(m, bp, s.live[bp])
            && End(s.bs[t]) <= bp && s.bs[0].addr <= s.bs[t].addr
  {
  }

  /** No unit of another block in use is a header that free writes. */
  lemma UsedElsewhere(s: State, bp: int, t: int, a: int, u: int)
    requires Good(s) && bp in s.live && 0 <= t < |s.bs| && a in s.live && a != bp && Within(Block(a, s.live[a]), u)
    ensures u != bp && u != s.bs[t].addr
  {
    assert Apart(s.bs, Block(a, s.live[a]));
    assert End(s.bs[t]) <= a || a + s.live[a] <= s.bs[t].addr;
  }

  /** The writes of free lead from one represented state to the next. */
  lemma FreedRep(m: seq<Header>, m': seq<Header>, s: State, bp: int)
    requires Usable(s, bp) && Rep(m, s) && LinkAt(m, s.bs, FreeIndex(s, bp)) && SizeAt(m, bp, s.live[bp])
    requires InsertWrites(m, m', s.bs, FreeIndex(s, bp), Block(bp, s.live[bp]))
    ensures Rep(m', Freed(s, bp)) && Untouched(m, m', Freed(s, bp).live)
  {
    var t, b, s' := FreeIndex(s, bp), Block(bp, s.live[bp]), Freed(s, bp);
    InsertLinked(m, m', s.bs, t, b, s'.bs, s.base, s.brk);
    forall a, u | a in s'.live && Within(Block(a, s'.live[a]), u)
      ensures u != bp && u != s.bs[t].addr
    {
      UsedElsewhere(s, bp, t, a, u);
    }
    forall a | a in s'.live
      ensures SizeAt(m', a, s'.live[a])
    {
      assert SizeAt(m, a, s.live[a]) && Within(Block(a, s'.live[a]), a);
    }
  }

  /** The writes of malloc lead from one represented state to the next. */
  ghost predicate CarveWrites(m: seq<Header>, m': seq<Header>, bs: seq<Block>, k: int, n: int)
    requires 0 < k < |bs| && 0 <= bs[k - 1].addr < |m| && 0 <= bs[k].addr < |m| && 0 <= End(bs[k]) - n < |m|
  {
    && |m'| == |m|
    && if bs[k].size == n then
         && (forall x :: 0 <= x < |m| && x != bs[k - 1].addr ==> m'[x] == m[x])
         && m'[bs[k - 1].addr] == Header(bs[Succ(k, |bs|)].addr, bs[k - 1].size)
       else
         && (forall x :: 0 <= x < |m| && x != bs[k].addr && x != End(bs[k]) - n ==> m'[x] == m[x])
         && m'[bs[k].addr] == m[bs[k].addr].(size := bs[k].size - n)
         && m'[End(bs[k]) - n].size == n
  }

  lemma TakenInMemory(m: seq<Header>, s: State, k: int, n: int)
    requires Takeable(s, k, n) && Rep(m, s)
    ensures LinkAt(m, s.bs, k) && LinkAt(m, s.bs, k - 1) && 0 < TakenAt(s, k, n) < |m|
  {
  }

  /** No unit of a block in use is a header that malloc writes. */
  lemma UsedApart(s: State, k: int, n: int, a: int, u: int)
    requires Takeable(s, k, n) && a in s.live && Within(Block(a, s.live[a]), u)
    ensures u != s.bs[k].addr && u != s.bs[k - 1].addr && u != TakenAt(s, k, n)
  {
    assert Apart(s.bs, Block(a, s.live[a]));
    assert End(s.bs[k]) <= a || a + s.live[a] <= s.bs[k].addr;
    assert End(s.bs[k - 1]) <= a || a + s.live[a] <= s.bs[k - 1].addr;
  }

  lemma TakenRep(m: seq<Header>, m': seq<Header>, s: State, k: int, n: int)
    requires Takeable(s, k, n) && Rep(m, s)
    requires LinkAt(m, s.bs, k) && LinkAt(m, s.bs, k - 1) && 0 < TakenAt(s, k, n) < |m|
    requires CarveWrites(m, m', s.bs, k, n)
    ensures Rep(m', Taken(s, k, n)) && Untouched(m, m', s.live)
  {
    var s', r := Taken(s, k, n), TakenAt(s, k, n);
    if s.bs[k].size == n {
      UnlinkLinked(m, m', s.bs, k, s'.bs, s.base, s.brk);
    } else {
      ShrinkLinked(m, m', s.bs, k, n, s'.bs, s.base, s.brk);
    }
    forall a, u | a in s.live && Within(Block(a, s.live[a]), u)
      ensures u != s.bs[k].addr && u != s.bs[k - 1].addr && u != r
    {
      UsedApart(s, k, n, a, u);
    }
    TakenGood(s, k, n);
    forall a | a in s'.live
      ensures SizeAt(m', a, s'.live[a])
    {
      if a != r {
        assert SizeAt(m, a, s.live[a]) && Within(Block(a, s.live[a]), a);
      }
    }
  }

  lemma ExtendedRep(m: seq<Header>, m': seq<Header>, s: State, hp: int, nu: int)
    requires Growable(s, hp, nu) && Rep(m, s) && hp + nu <= |m| == |m'|
    requires m'[hp].size == nu && forall x :: 0 <= x < |m| && x != hp ==> m'[x] == m[x]
    ensures Rep(m', Extended(s, hp, nu)) && Untouched(m, m', s.live)
  {
    forall i | 0 <= i < |s.bs|
      ensures LinkAt(m', s.bs, i)
    {
      assert LinkAt(m, s.bs, i);
    }
    forall a | a in s.live
      ensures SizeAt(m', a, s.live[a])
    {
      assert SizeAt(m, a, s.live[a]);
    }
  }

  /** The stopping test of the search holds at the insertion point and nowhere else. */
  lemma AtPlace(bs: seq<Block>, base: int, brk: int, t: int, k: int, bp: int)
    requires Shape(bs, base, brk) && InsertPoint(bs, t, bp) && 0 <= k < |bs|
    ensures var p, q := bs[k].addr, bs[Succ(k, |bs|)].addr;
            k == t <==> (bp > p && bp < q) || (p >= q && (bp > p || bp < q))
  {
  }

  class Allocator {
    const base: int
    const mem: array<Header>
    var freep: int
    ghost var s: GoodState

    ghost predicate Valid()
      reads this, mem
    {
      && Rep(mem[..], s) && s.base == base
      && freep == if s.bs == [] then NULL else s.bs[s.cur].addr
    }

    constructor (memory: array<Header>, base: int)
      requires 0 < base < memory.Length
      ensures Valid() && mem == memory && this.base == base
      ensures s == State([], 0, map[], iset{}, base, base + 1)
    {
      mem, this.base, freep := memory, base, NULL;
      s := State([], 0, map[], iset{}, base, base + 1);
    }

    /** The search of free: from freep, which may be anywhere, to the entry that bp follows
        in address order. */
    method FindPlace(bp: int) returns (p: int)
      requires Valid() && Usable(s, bp)
      ensures p == s.bs[FreeIndex(s, bp)].addr
    {
      ghost var bs, t, k := s.bs, FreeIndex(s, bp), s.cur;
      p := freep;
      LinksAt(mem[..], s, k);
      while !(bp > p && bp < mem[p].ptr)
        invariant 0 <= k < |bs| && p == bs[k].addr && LinkAt(mem[..], bs, k)
        decreases if k <= t then t - k else t - k + |bs|
      {
        AtPlace(bs, s.base, s.brk, t, k, bp);
        if p >= mem[p].ptr && (bp > p || bp < mem[p].ptr) {
          break;
        }
        p := mem[p].ptr;
        LinksAt(mem[..], s, k);
        k := Succ(k, |bs|);
      }
      AtPlace(bs, s.base, s.brk, t, k, bp);
    }

    /** The pointer surgery of free: bp goes between p and its successor and is merged with
        those of the two that it touches. */
    method Splice(bp: int, p: int, ghost bs: seq<Block>, ghost t: int, ghost b: Block)
      requires InsertPoint(bs, t, bp) && p == bs[t].addr && b.addr == bp && End(bs[t]) <= bp && bs[0].addr <= p
      requires LinkAt(mem[..], bs, t) && LinkAt(mem[..], bs, Succ(t, |bs|)) && SizeAt(mem[..], bp, b.size)
      requires b.size >= 1
      modifies mem
      ensures InsertWrites(old(mem[..]), mem[..], bs, t, b)
    {
      var q := mem[p].ptr;
      if bp + mem[bp].size == q {
        mem[bp] := Header(mem[q].ptr, mem[bp].size + mem[q].size);
      } else {
        mem[bp] := mem[bp].(ptr := q);
      }
      if p + mem[p].size == bp {
        mem[p] := Header(mem[bp].ptr, mem[p].size + mem[bp].size);
      } else {
        mem[p] := mem[p].(ptr := bp);
      }
    }

    /** Returns a block in use to the free list, merging it with its neighbours. */
    method Free(ap: int)
      requires Valid() && ap - 1 in s.live
      modifies this, mem
      ensures Valid() && s == Freed(old(s), ap - 1)
      ensures Untouched(old(mem[..]), mem[..], s.live)
    {
      var bp := ap - 1;
      var p := FindPlace(bp);
      SpliceReady(mem[..], s, bp);
      Splice(bp, p, s.bs, FreeIndex(s, bp), Block(bp, s.live[bp]));
      FreedRep(old(mem[..]), mem[..], s, bp);
      FreedGood(s, bp);
      freep := p;
      assert Freed(s, bp).bs[FreeIndex(s, bp)].addr == p;
      s := Freed(s, bp);
    }

    /** Gives fresh units a header, so that free takes them for a block in use. */
    method Register(hp: int, nu: nat)
      requires Valid() && Growable(s, hp, nu) && hp + nu <= mem.Length
      modifies this, mem
      ensures Valid() && s == Extended(old(s), hp, nu) && hp in s.live
      ensures Grown(old(s), hp, nu).live == old(s).live && freep == old(freep)
      ensures Untouched(old(mem[..]), mem[..], old(s).live)
    {
      mem[hp] := mem[hp].(size := nu);
      ExtendedRep(old(mem[..]), mem[..], s, hp, nu);
      ExtendedGood(s, hp, nu);
      GrownGood(s, hp, nu);
      s := Extended(s, hp, nu);
    }

    /** Puts fresh units on the free list by freeing them. */
    method Donate(hp: int, nu: nat)
      requires Valid() && Growable(s, hp, nu) && hp + nu <= mem.Length
      modifies this, mem
      ensures Valid() && freep != NULL && s == Grown(old(s), hp, nu)
      ensures Untouched(old(mem[..]), mem[..], old(s).live)
    {
      ghost var live := s.live;
      Register(hp, nu);
      ghost var m1 := mem[..];
      Free(hp + 1);
      assert s.live == live;
      UntouchedTrans(old(mem[..]), m1, mem[..], live);
    }

    /** Asks sbrk for at least n units and frees what it gets; grant is the answer of sbrk. */
    method MoreCore(n: nat, grant: Option<int>) returns (hp: int)
      requires Valid() && s.bs != [] && n >= 1 && GrantOk(s, n, grant)
      requires grant.Some? ==> grant.value + GrowUnits(n) <= mem.Length
      modifies this, mem
      ensures Valid() && Untouched(old(mem[..]), mem[..], old(s).live)
      ensures grant.None? ==> hp == NULL && unchanged(this) && unchanged(mem)
      ensures grant.Some? ==> hp == freep != NULL && s == Grown(old(s), grant.value, GrowUnits(n))
    {
      var nu := if n < GROW_MIN then GROW_MIN else n;
      match grant {
        case None =>
          return NULL;
        case Some(p) =>
          hp := p;
          Donate(hp, nu);
          hp := freep;
      }
    }

    /** First use: the sentinel points to itself. */
    method Initialize()
      requires Valid() && s.bs == []
      modifies this, mem
      ensures Valid() && s == Initialized(old(s)) && freep == base
      ensures Untouched(old(mem[..]), mem[..], old(s).live)
    {
      mem[base] := Header(base, 0);
      freep := base;
      InitializedGood(s);
      s := Initialized(s);
      assert LinkAt(mem[..], s.bs, 0);
    }

    /** The pointer surgery of malloc: the whole entry p is unlinked, or its tail is cut off. */
    method Cut(p: int, prevp: int, n: nat, ghost k: int) returns (r: int)
      requires Takeable(s, k, n) && p == s.bs[k].addr && prevp == s.bs[k - 1].addr
      requires LinkAt(mem[..], s.bs, k) && LinkAt(mem[..], s.bs, k - 1) && 0 < TakenAt(s, k, n) < mem.Length
      modifies mem
      ensures CarveWrites(old(mem[..]), mem[..], s.bs, k, n) && r == TakenAt(s, k, n)
    {
      r := p;
      if mem[p].size == n {
        mem[prevp] := mem[prevp].(ptr := mem[p].ptr);
      } else {
        mem[p] := mem[p].(size := mem[p].size - n);
        r := r + mem[p].size;
        mem[r] := mem[r].(size := n);
      }
    }

    /** Hands out n units of entry p, which follows prevp. */
    method TakeFrom(p: int, prevp: int, n: nat, ghost k: int) returns (r: int)
      requires Valid() && Takeable(s, k, n) && p == s.bs[k].addr && prevp == s.bs[k - 1].addr
      modifies this, mem
      ensures Valid() && s == Taken(old(s), k, n) && r == TakenAt(old(s), k, n) > 0
      ensures Untouched(old(mem[..]), mem[..], old(s).live)
    {
      TakenInMemory(mem[..], s, k, n);
      r := Cut(p, prevp, n, k);
      TakenRep(old(mem[..]), mem[..], s, k, n);
      TakenGood(s, k, n);
      freep := prevp;
      assert Taken(s, k, n).bs[k - 1].addr == prevp;
      s := Taken(s, k, n);
    }

    /** The header of the list entry at p. */
    method Look(p: int, ghost k: int) returns (h: Header)
      requires Valid() && 0 <= k < |s.bs| && p == s.bs[k].addr
      ensures h.size == s.bs[k].size && h.ptr == s.bs[Succ(k, |s.bs|)].addr
      ensures p == freep <==> k == s.cur
    {
      LinksAt(mem[..], s, k);
      ShapeOrder(s.bs, s.base, s.brk);
      h := mem[p];
    }

    /** The call of morecore in the search: it happens once at most, and the search can then
        start afresh from freep. */
    method MoreAtFreep(n: nat, grant: Option<int>, ghost s0: GoodState, ghost m0: seq<Header>, ghost grown: bool,
                       ghost j: int)
      returns (p: int)
      requires Valid() && s0.bs != [] && n >= 1 && GrantOk(s0, n, grant) && Untouched(m0, mem[..], s0.live)
      requires grant.Some? ==> grant.value + GrowUnits(n) <= mem.Length
      requires Searching(s0, s, n, grant, grown, j) && Succ(j, |s.bs|) == s.cur && s.bs[s.cur].size < n
      modifies this, mem
      ensures Valid() && !grown && Untouched(m0, mem[..], s0.live)
      ensures grant.None? ==> p == NULL && Malloced(s0, n, grant) == (s, None)
      ensures grant.Some? ==> p == freep != NULL && Searching(s0, s, n, grant, true, s.cur)
    {
      SearchOver(s0, s, n, grant, grown, j);
      p := MoreCore(n, grant);
      UntouchedTrans(m0, old(mem[..]), mem[..], s0.live);
    }

    /** The search has found an entry that is large enough. */
    method Hit(p: int, prevp: int, n: nat, grant: Option<int>, ghost s0: GoodState, ghost m0: seq<Header>, ghost grown: bool,
               ghost j: int)
      returns (ap: int)
      requires Valid() && s0.bs != [] && n >= 1 && GrantOk(s0, n, grant) && Untouched(m0, mem[..], s0.live)
      requires Searching(s0, s, n, grant, grown, j)
      requires var k := Succ(j, |s.bs|); s.bs[k].size >= n && p == s.bs[k].addr && prevp == s.bs[j].addr
      modifies this, mem
      ensures Valid() && s == Malloced(s0, n, grant).0 && Untouched(m0, mem[..], s0.live)
      ensures Malloced(s0, n, grant).1.Some? && ap == Malloced(s0, n, grant).1.value + 1
    {
      ghost var m1, k := mem[..], Succ(j, |s.bs|);
      SearchHit(s0, s, n, grant, grown, j);
      ap := TakeFrom(p, prevp, n, k);
      UntouchedTrans(m0, m1, mem[..], s0.live);
      ap := ap + 1;
    }

    /** The search loop of malloc: round the list from the entry after freep, at most one
        growth when it comes back to freep, and round again. */
    method Search(nunits: nat, grant: Option<int>) returns (ap: int)
      requires Valid() && s.bs != [] && nunits >= 1 && GrantOk(s, nunits, grant)
      requires grant.Some? ==> grant.value + GrowUnits(nunits) <= mem.Length
      modifies this, mem
      ensures Valid() && s == Malloced(old(s), nunits, grant).0
      ensures var r := Malloced(old(s), nunits, grant).1; ap == if r.None? then NULL else r.value + 1
      ensures Untouched(old(mem[..]), mem[..], old(s).live)
    {
      ghost var grown := false;
      ghost var s0: GoodState := s;
      var prevp := freep;
      var h := Look(prevp, s.cur);
      var p := h.ptr;
      ghost var j := s.cur;
      while true
        invariant Valid() && Searching(s0, s, nunits, grant, grown, j)
        invariant prevp == s.bs[j].addr && p == s.bs[Succ(j, |s.bs|)].addr
        invariant Untouched(old(mem[..]), mem[..], s0.live)
        decreases !grown, Remaining(s.bs, s.cur, Succ(j, |s.bs|))
      {
        ghost var k := Succ(j, |s.bs|);
        h := Look(p, k);
        if h.size >= nunits {
          ap := Hit(p, prevp, nunits, grant, s0, old(mem[..]), grown, j);
          return;
        }
        if p == freep {
          p := MoreAtFreep(nunits, grant, s0, old(mem[..]), grown, j);
          if p == NULL {
            return NULL;
          }
          grown, k := true, s.cur;
        } else {
          SearchOn(s0, s, nunits, grant, grown, j);
        }
        prevp, j := p, k;
        h := Look(p, k);
        p := h.ptr;
      }
    }

    /** Allocates at least nbytes bytes, or answers NULL when no free block is large enough
        and sbrk fails. */
    method Malloc(nbytes: nat, grant: Option<int>) returns (ap: int)
      requires Valid() && nbytes < WORD && GrantOk(s, Units(nbytes), grant)
      requires grant.Some? ==> grant.value + GrowUnits(Units(nbytes)) <= mem.Length
      modifies this, mem
      ensures Valid() && s == Malloced(old(s), Units(nbytes), grant).0
      ensures var r := Malloced(old(s), Units(nbytes), grant).1; ap == if r.None? then NULL else r.value + 1
      ensures Untouched(old(mem[..]), mem[..], old(s).live)
    {
      var nunits := (nbytes + HEADER_BYTES - 1) % WORD / HEADER_BYTES + 1;
      if freep == NULL {
        LinksAtFreep();
        Initialize();
      }
      ghost var m1 := mem[..];
      ap := Search(nunits, grant);
      UntouchedTrans(old(mem[..]), m1, mem[..], old(s).live);
    }

    /** One call of the program; free answers nothing, which counts as NULL. */
    method Serve(q: Request) returns (ap: int)
      requires Valid() && Legal(s, q) && InMemory(q, mem.Length)
      modifies this, mem
      ensures Valid() && s == HeapSpec.Serve(old(s), q) && ap == Answer(old(s), q)
      ensures Untouched(old(mem[..]), mem[..], Spared(old(s).live, q))
    {
      match q {
        case Malloc(nbytes, grant) =>
          ap := Malloc(nbytes, grant);
        case Free(bp) =>
          Free(bp + 1);
          ap := NULL;
      }
    }

    /** Any legal run of malloc and free calls: heap and answers are those of the specification,
        and no unit of a block changes that is in use all the time. */
    method ServeAll(qs: seq<Request>) returns (aps: seq<int>)
      requires Valid() && LegalRun(s, qs) && forall i :: 0 <= i < |qs| ==> InMemory(qs[i], mem.Length)
      modifies this, mem
      ensures Valid() && s == After(old(s), qs) && aps == Answers(old(s), qs)
      ensures Untouched(old(mem[..]), mem[..], Kept(old(s).live, qs))
      decreases |qs|
    {
      if qs == [] {
        return [];
      }
      var ap := Serve(qs[0]);
      ghost var live, m1 := s.live, mem[..];
      ServeKeeps(old(s), qs[0]);
      var rest := ServeAll(qs[1..]);
      UntouchedOn(old(mem[..]), m1, mem[..], Spared(old(s).live, qs[0]), live, qs[1..]);
      aps := [ap] + rest;
    }

    lemma LinksAtFreep()
      requires Valid()
      ensures freep == NULL <==> s.bs == []
    {
    }

    /** A write of the program into a block in use, past its header, does not concern the
        allocator. */
    method Store(a: int, u: int, h: Header)
      requires Valid() && a in s.live && a < u < a + s.live[a]
      modifies mem
      ensures Valid() && mem[..] == old(mem[..])[u := h]
    {
      assert Apart(s.bs, Block(a, s.live[a]));
      mem[u] := h;
      forall i | 0 <= i < |s.bs|
        ensures LinkAt(mem[..], s.bs, i)
      {
        assert LinkAt(old(mem[..]), s.bs, i);
        assert i > 0 ==> Within(s.bs[i], s.bs[i].addr);
      }
      forall c | c in s.live
        ensures SizeAt(mem[..], c, s.live[c])
      {
        assert SizeAt(old(mem[..]), c, s.live[c]);
      }
    }
  }
}
