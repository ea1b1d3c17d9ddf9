/** The allocator as a state machine on values: what malloc and free do to the free list, to
    the blocks in use and to the memory obtained, and what holds over every run. */
module HeapSpec {
  import opened FreeList
  import opened Options

  const HEADER_BYTES := 8
  const GROW_MIN := 4096
  const WORD := 0x1_0000_0000
  const INT_MAX := 0x7fff_ffff

  /** bs: the free list from the sentinel at base, empty before first use; cur: index of the
      roving pointer; live: header address and units of each block in use; owned: the units
      obtained so far, all below brk. */
  datatype State = State(bs: seq<Block>, cur: int, live: map<int, int>, owned: iset<int>, base: int, brk: int)

  // ----- sizes -----

  /** Units for a request, one of them for the header, in 32-bit arithmetic. */
  function Units(nbytes: nat): (n: nat)
    ensures n >= 1
  {
    (nbytes + HEADER_BYTES - 1) % WORD / HEADER_BYTES + 1
  }

  /** The units hold the request exactly when rounding up does not wrap around. */
  lemma UnitsSuffice(nbytes: nat)
    requires nbytes < WORD
    ensures (Units(nbytes) - 1) * HEADER_BYTES >= nbytes <==> nbytes <= WORD - HEADER_BYTES
  {
  }

  /** And no more units are taken than the request needs. */
  lemma UnitsTight(nbytes: nat)
    requires nbytes <= WORD - HEADER_BYTES
    ensures nbytes <= (Units(nbytes) - 1) * 8 < nbytes + 8
  {
  }

  function GrowUnits(n: nat): nat {
    if n < GROW_MIN then GROW_MIN else n
  }

  /** The int that sbrk gets for nu units: the byte count in 32 bits, read as signed. */
  function SbrkArg(nu: nat): int {
    var bytes := nu * HEADER_BYTES % WORD;
    if bytes > INT_MAX then bytes - WORD else bytes
  }

  /** The heap grows by the units wanted, but never by fewer than 4096, and
      sbrk is asked for all the units exactly when their bytes are a positive int; for more
      units, as a large request wants, it is asked for nothing or to take memory back. */
  lemma SbrkExact(nbytes: nat)
    requires nbytes < WORD
    ensures var nu := GrowUnits(Units(nbytes));
            && nu >= 4096 && nu >= Units(nbytes) && (nu > 4096 ==> nu == Units(nbytes))
            && (SbrkArg(nu) == nu * HEADER_BYTES <==> nu <= 0x0fff_ffff)
            && (nu > 0x0fff_ffff ==> SbrkArg(nu) <= 0)
  {
    var nu := GrowUnits(Units(nbytes));
    if nu > 0x0fff_ffff {
      assert 0x8000_0000 <= nu * HEADER_BYTES <= WORD;
    }
  }

  /** The greatest request that is not wrapped around makes sbrk move by nothing; the next one
      gets no room at all. */
  lemma SizesMissed()
    ensures Units(0xffff_fff8) == 0x2000_0000 && SbrkArg(0x2000_0000) == 0
    ensures Units(0xffff_fff9) == 1
  {
  }

  // ----- the invariant -----

  ghost predicate LiveCovers(live: map<int, int>, u: int) {
    exists a :: a in live && Within(Block(a, live[a]), u)
  }

  /** Blocks in use touch neither each other nor the free blocks. */
  ghost predicate LiveApart(live: map<int, int>, bs: seq<Block>, base: int, brk: int) {
    && (forall a :: a in live ==> base < a && live[a] >= 1 && a + live[a] <= brk && Apart(bs, Block(a, live[a])))
    && (forall a, c :: a in live && c in live && a != c ==> a + live[a] <= c || c + live[c] <= a)
  }

  /** Every unit obtained is free or in use, and no other unit is. */
  ghost predicate Partition(owned: iset<int>, bs: seq<Block>, live: map<int, int>) {
    forall u :: u in owned <==> Covers(bs, u) || LiveCovers(live, u)
  }

  ghost predicate Good(s: State) {
    && 0 < s.base < s.brk
    && (if s.bs == [] then s.live == map[] && s.owned == iset{}
        else Shape(s.bs, s.base, s.brk) && 0 <= s.cur < |s.bs|)
    && LiveApart(s.live, s.bs, s.base, s.brk)
    && Partition(s.owned, s.bs, s.live)
  }

  type GoodState = s: State | Good(s) ghost witness State([], 0, map[], iset{}, 1, 2)

  // ----- free -----

  ghost predicate Usable(s: State, bp: int) {
    Good(s) && s.bs != [] && bp in s.live
  }

  ghost function FreeIndex(s: State, bp: int): (t: int)
    requires Usable(s, bp)
    ensures InsertPoint(s.bs, t, bp)
  {
    LiveNotFree(s, bp);
    InsertIndex(s.bs, bp)
  }

  lemma LiveNotFree(s: State, bp: int)
    requires Usable(s, bp)
    ensures s.bs[0].addr < bp && forall i :: 0 <= i < |s.bs| ==> s.bs[i].addr != bp
  {
  }

  ghost function Freed(s: State, bp: int): State
    requires Usable(s, bp)
  {
    var t := FreeIndex(s, bp);
    s.(bs := Insert(s.bs, t, Block(bp, s.live[bp])), cur := t, live := s.live - {bp})
  }

  lemma ApartAfterInsert(bs: seq<Block>, t: int, b: Block, cs: seq<Block>, c: Block)
    requires Separated(bs) && 0 <= t < |bs| && Inserted(bs, t, b, cs) && b.size >= 1 && c.size >= 1
    requires Apart(bs, c) && (End(b) <= c.addr || End(c) <= b.addr)
    requires forall k :: 0 <= k < |bs| ==> bs[k].size >= 0
    ensures Apart(cs, c)
  {
  }

  lemma LiveCoversRemove(live: map<int, int>, bp: int)
    requires bp in live
    ensures forall u :: LiveCovers(live, u) <==> LiveCovers(live - {bp}, u) || Within(Block(bp, live[bp]), u)
  {
    var less := live - {bp};
    forall u
      ensures LiveCovers(live, u) <==> LiveCovers(less, u) || Within(Block(bp, live[bp]), u)
    {
      if LiveCovers(live, u) && !Within(Block(bp, live[bp]), u) {
        var a :| a in live && Within(Block(a, live[a]), u);
        assert a in less;
      }
      if LiveCovers(less, u) {
        var a :| a in less && Within(Block(a, less[a]), u);
        assert a in live;
      }
    }
  }

  /** free keeps the invariant and moves exactly the units of its block to the free list. */
  lemma FreedGood(s: State, bp: int)
    requires Usable(s, bp)
    ensures Good(Freed(s, bp)) && Freed(s, bp).bs != []
    ensures forall u :: Covers(Freed(s, bp).bs, u) <==> Covers(s.bs, u) || Within(Block(bp, s.live[bp]), u)
    ensures Fits(Freed(s, bp).bs, s.live[bp])
  {
    var t, b, s' := FreeIndex(s, bp), Block(bp, s.live[bp]), Freed(s, bp);
    InsertShape(s.bs, t, b, s'.bs, s.base, s.brk);
    InsertCovers(s.bs, t, b, s'.bs);
    LiveCoversRemove(s.live, bp);
    forall a | a in s'.live
      ensures Apart(s'.bs, Block(a, s'.live[a]))
    {
      ApartAfterInsert(s.bs, t, b, s'.bs, Block(a, s.live[a]));
    }
    assert s'.bs[Lo(s.bs, t, b)].size >= s.live[bp];
  }

  /** free leaves the roving pointer at the last free block that starts below the one returned. */
  lemma RovingAfterFree(s: State, bp: int)
    requires Usable(s, bp)
    ensures var s' := Freed(s, bp);
            && 0 <= s'.cur < |s'.bs| && s'.bs[s'.cur].addr < bp
            && forall i :: s'.cur < i < |s'.bs| ==> bp <= s'.bs[i].addr
  {
    FreedGood(s, bp);
    InsertOrder(s.bs, FreeIndex(s, bp), Block(bp, s.live[bp]), Freed(s, bp).bs, s.base, s.brk);
  }

  // ----- growth -----

  ghost function Range(a: int, n: int): iset<int> {
    iset u | Within(Block(a, n), u)
  }

  ghost predicate Growable(s: State, hp: int, nu: int) {
    Good(s) && s.bs != [] && s.brk <= hp && nu >= 1
  }

  /** Fresh units enter as a block in use, which morecore frees at once. */
  ghost function Extended(s: State, hp: int, nu: int): State {
    s.(live := s.live[hp := nu], owned := s.owned + Range(hp, nu), brk := hp + nu)
  }

  lemma LiveCoversAdd(live: map<int, int>, a: int, n: int)
    requires a !in live
    ensures forall u :: LiveCovers(live[a := n], u) <==> LiveCovers(live, u) || Within(Block(a, n), u)
  {
    var more := live[a := n];
    forall u
      ensures LiveCovers(more, u) <==> LiveCovers(live, u) || Within(Block(a, n), u)
    {
      if LiveCovers(live, u) {
        var c :| c in live && Within(Block(c, live[c]), u);
        assert c in more && more[c] == live[c];
      }
      if Within(Block(a, n), u) {
        assert a in more && more[a] == n;
      }
    }
  }

  lemma AddedAndRemoved(live: map<int, int>, a: int, n: int)
    requires a !in live
    ensures live[a := n] - {a} == live
  {
  }

  lemma ExtendedGood(s: State, hp: int, nu: int)
    requires Growable(s, hp, nu)
    ensures hp !in s.live && Usable(Extended(s, hp, nu), hp)
  {
    assert hp !in s.live;
    LiveCoversAdd(s.live, hp, nu);
  }

  ghost function Grown(s: State, hp: int, nu: int): State
    requires Growable(s, hp, nu)
  {
    ExtendedGood(s, hp, nu);
    Freed(Extended(s, hp, nu), hp)
  }

  /** Growth adds the new units to the free list and changes no block in use. */
  lemma GrownGood(s: State, hp: int, nu: int)
    requires Growable(s, hp, nu)
    ensures var s' := Grown(s, hp, nu);
            && Good(s') && s'.bs != [] && s'.live == s.live && Fits(s'.bs, nu)
            && s'.owned == s.owned + Range(hp, nu) && s'.brk == hp + nu && s'.base == s.base
            && forall u :: Covers(s'.bs, u) <==> Covers(s.bs, u) || Within(Block(hp, nu), u)
  {
    ExtendedGood(s, hp, nu);
    FreedGood(Extended(s, hp, nu), hp);
    AddedAndRemoved(s.live, hp, nu);
  }

  // ----- malloc -----

  ghost predicate Takeable(s: State, k: int, n: int) {
    Good(s) && 0 < k < |s.bs| && 1 <= n <= s.bs[k].size
  }

  /** The header of the n units cut from the tail of entry k. */
  ghost function TakenAt(s: State, k: int, n: int): int
    requires 0 <= k < |s.bs|
  {
    End(s.bs[k]) - n
  }

  ghost function Taken(s: State, k: int, n: int): State
    requires Takeable(s, k, n)
  {
    s.(bs := Carve(s.bs, k, n), cur := k - 1, live := s.live[TakenAt(s, k, n) := n])
  }

  /** Taking a block keeps the invariant and removes exactly its units from the free list. */
  lemma TakenGood(s: State, k: int, n: int)
    requires Takeable(s, k, n)
    ensures Good(Taken(s, k, n)) && Taken(s, k, n).bs != [] && TakenAt(s, k, n) !in s.live
    ensures forall u :: Covers(Taken(s, k, n).bs, u) <==> Covers(s.bs, u) && !Within(Block(TakenAt(s, k, n), n), u)
    ensures s.base < TakenAt(s, k, n)
  {
    var r, s' := TakenAt(s, k, n), Taken(s, k, n);
    CarveShape(s.bs, k, n, s'.bs, s.base, s.brk);
    CarveCovers(s.bs, k, n, s'.bs);
    assert End(s.bs[0]) < s.bs[k].addr;
    forall a | a in s.live
      ensures a + s.live[a] <= r || r + n <= a
      ensures Apart(s'.bs, Block(a, s.live[a]))
    {
      ApartAfterCarve(s.bs, k, n, s'.bs, Block(a, s.live[a]));
    }
    LiveCoversAdd(s.live, r, n);
  }

  /** malloc hands out the upper end of a free block and leaves the roving pointer at the free
      block below it. */
  lemma RovingAfterMalloc(s: State, k: int, n: int)
    requires Takeable(s, k, n)
    ensures var s', r := Taken(s, k, n), TakenAt(s, k, n);
            && r + n == s.bs[k].addr + s.bs[k].size
            && 0 <= s'.cur < |s'.bs| && s'.bs[s'.cur] == s.bs[k - 1]
            && s'.bs[s'.cur].addr < r
            && (s.bs[k].size > n ==> s'.cur + 1 < |s'.bs| && s'.bs[s'.cur + 1].addr == s.bs[k].addr)
            && (s.bs[k].size == n ==> forall i :: s'.cur < i < |s'.bs| ==> r < s'.bs[i].addr)
  {
    TakenGood(s, k, n);
  }

  lemma ApartAfterCarve(bs: seq<Block>, k: int, n: int, cs: seq<Block>, c: Block)
    requires 0 <= k < |bs| && 1 <= n <= bs[k].size && Carved(bs, k, n, cs) && Apart(bs, c) && c.size >= 1
    ensures Apart(cs, c) && (End(c) <= End(bs[k]) - n || End(bs[k]) <= c.addr)
  {
  }

  ghost function Initialized(s: State): State {
    if s.bs == [] then s.(bs := [Block(s.base, 0)], cur := 0) else s
  }

  lemma InitializedGood(s: State)
    requires Good(s)
    ensures Good(Initialized(s)) && Initialized(s).bs != []
    ensures forall u :: Covers(Initialized(s).bs, u) <==> Covers(s.bs, u)
    ensures forall n :: n >= 1 ==> (Fits(Initialized(s).bs, n) <==> Fits(s.bs, n))
  {
  }

  ghost function Fit(s: State, n: int): int
    requires Good(s) && s.bs != []
  {
    FirstFit(s.bs, s.cur, n)
  }

  lemma FitTakeable(s: State, n: int)
    requires Good(s) && s.bs != [] && n >= 1 && Fits(s.bs, n)
    ensures Takeable(s, Fit(s, n), n)
  {
    FirstFitFits(s.bs, s.cur, n);
  }

  /** What sbrk promises when it answers with an address: as many fresh units as asked for,
      above everything obtained before. An answer to a request for fewer bytes than the units
      have, which SbrkExact tells apart, is left out. */
  ghost predicate GrantOk(s: State, n: nat, grant: Option<int>) {
    grant.Some? ==> SbrkArg(GrowUnits(n)) == GrowUnits(n) * HEADER_BYTES && s.brk <= grant.value
  }

  /** State after malloc of n units, and the header of the new block if there is one. */
  ghost function Malloced(s: State, n: nat, grant: Option<int>): (State, Option<int>)
    requires Good(s) && n >= 1 && GrantOk(s, n, grant)
  {
    InitializedGood(s);
    var i := Initialized(s);
    if Fits(i.bs, n) then
      FitTakeable(i, n);
      (Taken(i, Fit(i, n), n), Some(TakenAt(i, Fit(i, n), n)))
    else if grant.None? then
      (i, None)
    else
      var g := Grown(i, grant.value, GrowUnits(n));
      GrownFits(i, grant.value, n);
      (Taken(g, Fit(g, n), n), Some(TakenAt(g, Fit(g, n), n)))
  }

  lemma GrownFits(s: State, hp: int, n: nat)
    requires Growable(s, hp, GrowUnits(n)) && n >= 1
    ensures var g := Grown(s, hp, GrowUnits(n)); Good(g) && g.bs != [] && Fits(g.bs, n) && Takeable(g, Fit(g, n), n)
  {
    var g := Grown(s, hp, GrowUnits(n));
    GrownGood(s, hp, GrowUnits(n));
    var i :| 0 <= i < |g.bs| && g.bs[i].size >= GrowUnits(n);
    assert g.bs[i].size >= n;
    FitTakeable(g, n);
  }

  // ----- the search loop of malloc -----

  /** The loop of malloc on a request of n units from heap s0 has come to heap s, with grown
      telling whether it has asked for memory, and looks at the entry after j next. */
  ghost predicate Searching(s0: GoodState, s: GoodState, n: nat, grant: Option<int>, grown: bool, j: int)
    requires s0.bs != [] && n >= 1 && GrantOk(s0, n, grant)
  {
    && 0 <= j < |s.bs| && s.live == s0.live
    && FirstFrom(s.bs, s.cur, n, Succ(j, |s.bs|)) == Fit(s, n)
    && if !grown then s == s0
       else grant.Some? && !Fits(s0.bs, n) && s == Grown(s0, grant.value, GrowUnits(n)) && Takeable(s, Fit(s, n), n)
  }

  /** An entry that is large enough is the one malloc takes. */
  lemma SearchHit(s0: GoodState, s: GoodState, n: nat, grant: Option<int>, grown: bool, j: int)
    requires s0.bs != [] && n >= 1 && GrantOk(s0, n, grant)
    requires Searching(s0, s, n, grant, grown, j) && s.bs[Succ(j, |s.bs|)].size >= n
    ensures var k := Succ(j, |s.bs|);
            && k == j + 1 && Takeable(s, k, n)
            && Malloced(s0, n, grant) == (Taken(s, k, n), Some(TakenAt(s, k, n)))
  {
  }

  /** Past an entry that is too small the search goes on. */
  lemma SearchOn(s0: GoodState, s: GoodState, n: nat, grant: Option<int>, grown: bool, j: int)
    requires s0.bs != [] && n >= 1 && GrantOk(s0, n, grant)
    requires Searching(s0, s, n, grant, grown, j)
    requires s.bs[Succ(j, |s.bs|)].size < n && Succ(j, |s.bs|) != s.cur
    ensures var k := Succ(j, |s.bs|);
            Searching(s0, s, n, grant, grown, k)
            && 0 <= Remaining(s.bs, s.cur, Succ(k, |s.bs|)) < Remaining(s.bs, s.cur, k)
  {
  }

  /** At the roving entry nothing fits; after growth the search never comes there without
      success. */
  lemma SearchOver(s0: GoodState, s: GoodState, n: nat, grant: Option<int>, grown: bool, j: int)
    requires s0.bs != [] && n >= 1 && GrantOk(s0, n, grant)
    requires Searching(s0, s, n, grant, grown, j)
    requires s.bs[Succ(j, |s.bs|)].size < n && Succ(j, |s.bs|) == s.cur
    ensures !grown && !Fits(s0.bs, n)
    ensures grant.None? ==> Malloced(s0, n, grant) == (s0, None)
    ensures grant.Some? ==>
              var g := Grown(s0, grant.value, GrowUnits(n));
              Good(g) && g.bs != [] && Searching(s0, g, n, grant, true, g.cur)
  {
    FirstFitFits(s.bs, s.cur, n);
    if grant.Some? {
      GrownGood(s0, grant.value, GrowUnits(n));
      GrownFits(s0, grant.value, n);
    }
  }

  /** The units of the heap after malloc: the request fails only if no free block is large
      enough and sbrk fails; otherwise its units leave the free list, which has grown by what
      sbrk gave if and only if nothing fitted before. */
  lemma MallocedGood(s: State, n: nat, grant: Option<int>)
    requires Good(s) && n >= 1 && GrantOk(s, n, grant)
    ensures var (s', r) := Malloced(s, n, grant);
            && Good(s') && s'.bs != [] && s'.base == s.base
            && (r.None? <==> !Fits(s.bs, n) && grant.None?)
            && s'.live == (if r.None? then s.live else s.live[r.value := n])
            && (r.Some? ==> r.value !in s.live && r.value > 0)
            && s'.owned == (if Fits(s.bs, n) || grant.None? then s.owned else s.owned + Range(grant.value, GrowUnits(n)))
            && s'.brk == (if Fits(s.bs, n) || grant.None? then s.brk else grant.value + GrowUnits(n))
  {
    InitializedGood(s);
    var i := Initialized(s);
    if Fits(i.bs, n) {
      FitTakeable(i, n);
      TakenGood(i, Fit(i, n), n);
    } else if grant.Some? {
      var g := Grown(i, grant.value, GrowUnits(n));
      GrownGood(i, grant.value, GrowUnits(n));
      GrownFits(i, grant.value, n);
      TakenGood(g, Fit(g, n), n);
    }
  }

  // ----- the free list is a function of what is in use -----

  /** Two heaps that obtained the same units and have the same blocks in use have the same
      free list, whatever requests led to them. */
  lemma HistoryIndependent(s: State, s': State)
    requires Good(s) && Good(s') && s.bs != [] && s'.bs != []
    requires s.base == s'.base && s.live == s'.live && s.owned == s'.owned
    ensures s.bs == s'.bs
  {
    TailUnits(s);
    TailUnits(s');
    UniqueList(s.bs[1..], s'.bs[1..]);
    assert s.bs == [s.bs[0]] + s.bs[1..] && s'.bs == [s'.bs[0]] + s'.bs[1..];
  }

  lemma TailUnits(s: State)
    requires Good(s) && s.bs != []
    ensures Separated(s.bs[1..]) && NonEmpty(s.bs[1..])
    ensures forall u :: Covers(s.bs[1..], u) <==> u in s.owned && !LiveCovers(s.live, u)
  {
  }

  lemma FreeUndoesTaking(s: State, k: int, n: int)
    requires Takeable(s, k, n)
    ensures Usable(Taken(s, k, n), TakenAt(s, k, n)) && Freed(Taken(s, k, n), TakenAt(s, k, n)).bs == s.bs
  {
    var s', r := Taken(s, k, n), TakenAt(s, k, n);
    TakenGood(s, k, n);
    FreedGood(s', r);
    AddedAndRemoved(s.live, r, n);
    HistoryIndependent(Freed(s', r), s);
  }

  /** free undoes malloc: the free list is again what it was before the request. */
  lemma FreeUndoesMalloc(s: State, n: nat, grant: Option<int>)
    requires Good(s) && s.bs != [] && n >= 1 && GrantOk(s, n, grant) && Fits(s.bs, n)
    ensures var (s', r) := Malloced(s, n, grant);
            r.Some? && Usable(s', r.value) && Freed(s', r.value).bs == s.bs
  {
    FitTakeable(s, n);
    FreeUndoesTaking(s, Fit(s, n), n);
  }

  /** Once everything is returned nothing stays fragmented: memory obtained in one piece is
      one free block. */
  lemma NoFragmentation(s: State, lo: int, n: int)
    requires Good(s) && s.bs != [] && s.live == map[] && n >= 1 && s.owned == Range(lo, n)
    ensures s.bs == [Block(s.base, 0), Block(lo, n)]
  {
    var whole := [Block(lo, n)];
    TailUnits(s);
    forall u
      ensures Covers(whole, u) <==> Covers(s.bs[1..], u)
    {
      assert Within(whole[0], u) <==> u in Range(lo, n);
    }
    UniqueList(s.bs[1..], whole);
    assert s.bs == [s.bs[0]] + s.bs[1..];
  }

  // ----- runs -----

  datatype Request = Malloc(nbytes: nat, grant: Option<int>) | Free(bp: int)

  /** malloc may be called at any time; free only for a block in use. */
  ghost predicate Legal(s: State, q: Request)
    requires Good(s)
  {
    match q
    case Malloc(nbytes, grant) => nbytes < WORD && GrantOk(s, Units(nbytes), grant)
    case Free(bp) => bp in s.live
  }

  ghost function Serve(s: State, q: Request): (s': State)
    requires Good(s) && Legal(s, q)
    ensures Good(s') && s'.base == s.base
  {
    match q
    case Malloc(nbytes, grant) =>
      MallocedGood(s, Units(nbytes), grant);
      Malloced(s, Units(nbytes), grant).0
    case Free(bp) =>
      FreedGood(s, bp);
      Freed(s, bp)
  }

  /** What the program gets: NULL, or the address behind the header of its block. */
  ghost function Answer(s: State, q: Request): int
    requires Good(s) && Legal(s, q)
  {
    match q
    case Malloc(nbytes, grant) =>
      var r := Malloced(s, Units(nbytes), grant).1;
      if r.None? then 0 else r.value + 1
    case Free(_) => 0
  }

  ghost function Spared(live: map<int, int>, q: Request): map<int, int> {
    if q.Free? then live - {q.bp} else live
  }

  /** The given blocks without those that are freed. */
  ghost function Kept(live: map<int, int>, qs: seq<Request>): map<int, int>
    decreases |qs|
  {
    if qs == [] then live else Kept(Spared(live, qs[0]), qs[1..])
  }

  ghost predicate LegalRun(s: State, qs: seq<Request>)
    requires Good(s)
    decreases |qs|
  {
    qs == [] || (Legal(s, qs[0]) && LegalRun(Serve(s, qs[0]), qs[1..]))
  }

  /** The heap after a run of requests. Whatever they are, the free list stays one
      address-ordered cycle of maximal blocks through the sentinel, and free and used blocks
      split the units obtained from sbrk exactly. */
  ghost function After(s: State, qs: seq<Request>): (s': State)
    requires Good(s) && LegalRun(s, qs)
    ensures Good(s') && s'.base == s.base
    decreases |qs|
  {
    if qs == [] then s else After(Serve(s, qs[0]), qs[1..])
  }

  ghost function Answers(s: State, qs: seq<Request>): seq<int>
    requires Good(s) && LegalRun(s, qs)
    decreases |qs|
  {
    if qs == [] then [] else [Answer(s, qs[0])] + Answers(Serve(s, qs[0]), qs[1..])
  }

  ghost predicate Among(some: map<int, int>, all: map<int, int>) {
    forall a :: a in some ==> a in all && all[a] == some[a]
  }

  /** Who starts with fewer blocks keeps fewer, and nothing is added. */
  lemma {:induction false} KeptAmong(some: map<int, int>, all: map<int, int>, qs: seq<Request>)
    requires Among(some, all)
    ensures Among(Kept(some, qs), Kept(all, qs)) && Among(Kept(some, qs), some)
    decreases |qs|
  {
    if qs != [] {
      KeptAmong(Spared(some, qs[0]), Spared(all, qs[0]), qs[1..]);
    }
  }

  /** A call leaves the other blocks in use. */
  lemma ServeKeeps(s: State, q: Request)
    requires Good(s) && Legal(s, q)
    ensures Among(Spared(s.live, q), Serve(s, q).live)
  {
    if q.Malloc? {
      MallocedGood(s, Units(q.nbytes), q.grant);
    }
  }

  /** Two runs that leave the same blocks in use, out of the same memory, leave the same free
      list. */
  lemma RunsAgree(s: State, qs: seq<Request>, rs: seq<Request>)
    requires Good(s) && LegalRun(s, qs) && LegalRun(s, rs)
    requires After(s, qs).bs != [] && After(s, rs).bs != []
    requires After(s, qs).live == After(s, rs).live && After(s, qs).owned == After(s, rs).owned
    ensures After(s, qs).bs == After(s, rs).bs
  {
    HistoryIndependent(After(s, qs), After(s, rs));
  }
}
