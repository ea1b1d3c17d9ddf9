/** Producers and consumers of a bounded buffer, as processes that step over three semaphores. */
module BoundedBuffer {

  // ----- semaphores -----

  /** A value, and the processes that wait, the first to come in front. */
  datatype Sem = Sem(value: int, waiting: seq<nat>)

  /** P counts down and puts the caller to sleep if the value is negative then. */
  function Down(s: Sem, i: nat): Sem {
    Sem(s.value - 1, if s.value - 1 < 0 then s.waiting + [i] else s.waiting)
  }

  predicate Blocks(s: Sem) {
    s.value - 1 < 0
  }

  /** V counts up and wakes the first sleeper if the value is not positive then. */
  function Up(s: Sem): Sem {
    Sem(s.value + 1, if Wakes(s) then s.waiting[1..] else s.waiting)
  }

  predicate Wakes(s: Sem) {
    s.value + 1 <= 0 && s.waiting != []
  }

  /** What P can still take without sleeping. */
  function Units(s: Sem): int {
    s.value + |s.waiting|
  }

  predicate GoodSem(s: Sem) {
    Units(s) >= 0 && (s.waiting != [] ==> Units(s) == 0)
  }

  // ----- processes -----

  datatype Role = Producer | Consumer

  /** Where a process is: at its own work, before P of the first semaphore (empty for a
      producer, full for a consumer), asleep there, before P(mutex), asleep there, before it
      puts or takes, before V(mutex), and before V of the second semaphore. */
  datatype Stage = Working | AtFirst | InFirst | AtMutex | InMutex | Inside | AtLeave | AtSecond

  datatype Proc = Proc(role: Role, stage: Stage)

  datatype System = System(procs: seq<Proc>, empty: Sem, full: Sem, mutex: Sem, items: int)

  function First(s: System, r: Role): Sem {
    if r.Producer? then s.empty else s.full
  }

  function Second(s: System, r: Role): Sem {
    if r.Producer? then s.full else s.empty
  }

  function WithFirst(s: System, r: Role, x: Sem): System {
    if r.Producer? then s.(empty := x) else s.(full := x)
  }

  function WithSecond(s: System, r: Role, x: Sem): System {
    if r.Producer? then s.(full := x) else s.(empty := x)
  }

  function Move(s: System, i: nat, stage: Stage): (t: System)
    requires i < |s.procs|
    ensures |t.procs| == |s.procs|
  {
    s.(procs := s.procs[i := s.procs[i].(stage := stage)])
  }

  /** Moves the process that V wakes to behind its P. */
  function Wake(s: System, x: Sem, stage: Stage): (t: System)
    ensures |t.procs| == |s.procs|
  {
    if Wakes(x) && x.waiting[0] < |s.procs| then Move(s, x.waiting[0], stage) else s
  }

  predicate Runnable(p: Proc) {
    !p.stage.InFirst? && !p.stage.InMutex?
  }

  /** Process i makes its next step; asleep, it makes none. */
  function Step(s: System, i: nat): (t: System)
    requires i < |s.procs|
    ensures |t.procs| == |s.procs|
  {
    var r := s.procs[i].role;
    match s.procs[i].stage
    case Working => Move(s, i, AtFirst)
    case AtFirst => Move(WithFirst(s, r, Down(First(s, r), i)), i, if Blocks(First(s, r)) then InFirst else AtMutex)
    case AtMutex => Move(s.(mutex := Down(s.mutex, i)), i, if Blocks(s.mutex) then InMutex else Inside)
    case Inside => Move(s.(items := if r.Producer? then s.items + 1 else s.items - 1), i, AtLeave)
    case AtLeave => Move(Wake(s.(mutex := Up(s.mutex)), s.mutex, Inside), i, AtSecond)
    case AtSecond =>
      Move(Wake(WithSecond(s, r, Up(Second(s, r))), Second(s, r), AtMutex), i, if r.Producer? then Working else AtFirst)
    case _ => s
  }

  /** Producers start at their work, consumers at P(full). */
  function Start(procs: seq<Role>, size: nat): System {
    System(seq(|procs|, i requires 0 <= i < |procs| => Proc(procs[i], if procs[i].Producer? then Working else AtFirst)),
           Sem(size, []), Sem(0, []), Sem(1, []), 0)
  }

  /** A run of any interleaving: who steps, from the first step on. */
  function Run(s: System, picks: seq<nat>): (t: System)
    ensures |t.procs| == |s.procs|
  {
    if picks == [] then s
    else
      var t := Run(s, picks[..|picks| - 1]);
      if picks[|picks| - 1] < |t.procs| then Step(t, picks[|picks| - 1]) else t
  }

  // ----- counting -----

  function Sum(procs: seq<Proc>, f: Proc -> nat): nat {
    if procs == [] then 0 else Sum(procs[..|procs| - 1], f) + f(procs[|procs| - 1])
  }

  lemma {:induction false} SumUpdate(procs: seq<Proc>, i: nat, p: Proc, f: Proc -> nat)
    requires i < |procs|
    ensures Sum(procs[i := p], f) == Sum(procs, f) - f(procs[i]) + f(p)
    ensures Sum(procs, f) >= f(procs[i])
  {
    var n := |procs| - 1;
    if i < n {
      SumUpdate(procs[..n], i, p, f);
      assert procs[i := p][..n] == procs[..n][i := p];
    } else {
      assert procs[i := p][..n] == procs[..n];
    }
  }

  /** A process that took a unit of its first semaphore and still owes one to the second. */
  function Claim(p: Proc): nat {
    if p.stage.Working? || p.stage.AtFirst? || p.stage.InFirst? then 0 else 1
  }

  /** An item in the buffer that full does not count: just put there, or about to be taken. */
  function Filled(p: Proc): nat {
    if p.role.Producer? then (if p.stage.AtLeave? || p.stage.AtSecond? then 1 else 0)
    else if p.stage.AtMutex? || p.stage.InMutex? || p.stage.Inside? then 1
    else 0
  }

  /** A process between P(mutex) and V(mutex). */
  function Critical(p: Proc): nat {
    if p.stage.Inside? || p.stage.AtLeave? then 1 else 0
  }

  // ----- the invariant -----

  predicate Distinct(w: seq<nat>) {
    forall i, j :: 0 <= i < j < |w| ==> w[i] != w[j]
  }

  predicate AtEmpty(p: Proc) {
    p == Proc(Producer, InFirst)
  }

  predicate AtFull(p: Proc) {
    p == Proc(Consumer, InFirst)
  }

  predicate AtMutexLine(p: Proc) {
    p.stage == InMutex
  }

  /** w lists the processes asleep in one place, once each. */
  ghost predicate Lists(w: seq<nat>, procs: seq<Proc>, asleep: Proc -> bool) {
    Distinct(w) && forall i: nat :: i in w <==> i < |procs| && asleep(procs[i])
  }

  /** The sleepers at each semaphore are those in its list, once each. */
  ghost predicate Listed(s: System) {
    && Lists(s.empty.waiting, s.procs, AtEmpty)
    && Lists(s.full.waiting, s.procs, AtFull)
    && Lists(s.mutex.waiting, s.procs, AtMutexLine)
  }

  ghost predicate Balanced(s: System, size: nat) {
    && GoodSem(s.empty) && GoodSem(s.full) && GoodSem(s.mutex)
    && Units(s.empty) + Units(s.full) + Sum(s.procs, Claim) == size
    && Units(s.mutex) + Sum(s.procs, Critical) == 1
    && s.items == Units(s.full) + Sum(s.procs, Filled)
  }

  ghost predicate Good(s: System, size: nat) {
    Listed(s) && Balanced(s, size)
  }

  // ----- every step keeps it -----

  lemma Moved(s: System, i: nat, stage: Stage)
    requires i < |s.procs|
    ensures var p, q, t := s.procs[i], s.procs[i].(stage := stage), Move(s, i, stage);
            && Sum(t.procs, Claim) == Sum(s.procs, Claim) - Claim(p) + Claim(q)
            && Sum(t.procs, Filled) == Sum(s.procs, Filled) - Filled(p) + Filled(q)
            && Sum(t.procs, Critical) == Sum(s.procs, Critical) - Critical(p) + Critical(q)
  {
    SumUpdate(s.procs, i, s.procs[i].(stage := stage), Claim);
    SumUpdate(s.procs, i, s.procs[i].(stage := stage), Filled);
    SumUpdate(s.procs, i, s.procs[i].(stage := stage), Critical);
  }

  lemma ListsKept(w: seq<nat>, procs: seq<Proc>, asleep: Proc -> bool, i: nat, p: Proc)
    requires Lists(w, procs, asleep) && i < |procs| && !asleep(procs[i]) && !asleep(p)
    ensures Lists(w, procs[i := p], asleep)
  {
  }

  lemma ListsJoined(w: seq<nat>, procs: seq<Proc>, asleep: Proc -> bool, i: nat, p: Proc)
    requires Lists(w, procs, asleep) && i < |procs| && !asleep(procs[i]) && asleep(p)
    ensures Lists(w + [i], procs[i := p], asleep)
  {
  }

  lemma ListsHead(w: seq<nat>, procs: seq<Proc>, asleep: Proc -> bool)
    requires Lists(w, procs, asleep) && w != []
    ensures w[0] < |procs| && asleep(procs[w[0]])
  {
  }

  lemma ListsLeft(w: seq<nat>, procs: seq<Proc>, asleep: Proc -> bool, p: Proc)
    requires Lists(w, procs, asleep) && w != [] && !asleep(p) && w[0] < |procs|
    ensures Lists(w[1..], procs[w[0] := p], asleep)
  {
    var q := procs[w[0] := p];
    forall i: nat
      ensures i in w[1..] <==> i < |q| && asleep(q[i])
    {
      assert i in w <==> i == w[0] || i in w[1..];
      if i in w[1..] {
        var k :| 0 <= k < |w[1..]| && w[1..][k] == i;
        assert w[k + 1] != w[0];
      }
    }
  }

  /** A step from one stage to another where a process is not asleep. */
  lemma MovedAwake(t: System, i: nat, stage: Stage)
    requires Listed(t) && i < |t.procs| && Runnable(t.procs[i]) && !stage.InFirst? && !stage.InMutex?
    ensures Listed(Move(t, i, stage))
    ensures var p, q, u := t.procs[i], t.procs[i].(stage := stage), Move(t, i, stage);
            && Sum(u.procs, Claim) == Sum(t.procs, Claim) - Claim(p) + Claim(q)
            && Sum(u.procs, Filled) == Sum(t.procs, Filled) - Filled(p) + Filled(q)
            && Sum(u.procs, Critical) == Sum(t.procs, Critical) - Critical(p) + Critical(q)
  {
    var q := t.procs[i].(stage := stage);
    Moved(t, i, stage);
    ListsKept(t.empty.waiting, t.procs, AtEmpty, i, q);
    ListsKept(t.full.waiting, t.procs, AtFull, i, q);
    ListsKept(t.mutex.waiting, t.procs, AtMutexLine, i, q);
  }

  lemma StepOwn(s: System, i: nat, size: nat)
    requires Good(s, size) && i < |s.procs| && (s.procs[i].stage.Working? || s.procs[i].stage.Inside?)
    ensures Good(Step(s, i), size)
  {
    MovedAwake(s, i, if s.procs[i].stage.Working? then AtFirst else AtLeave);
  }

  lemma FirstBlocks(s: System, i: nat, size: nat)
    requires Good(s, size) && i < |s.procs| && s.procs[i].stage.AtFirst? && Blocks(First(s, s.procs[i].role))
    ensures Good(Step(s, i), size)
  {
    var p := s.procs[i].(stage := InFirst);
    Moved(s, i, InFirst);
    ListsKept(s.mutex.waiting, s.procs, AtMutexLine, i, p);
    if p.role.Producer? {
      ListsJoined(s.empty.waiting, s.procs, AtEmpty, i, p);
      ListsKept(s.full.waiting, s.procs, AtFull, i, p);
    } else {
      ListsKept(s.empty.waiting, s.procs, AtEmpty, i, p);
      ListsJoined(s.full.waiting, s.procs, AtFull, i, p);
    }
  }

  lemma FirstPasses(s: System, i: nat, size: nat)
    requires Good(s, size) && i < |s.procs| && s.procs[i].stage.AtFirst? && !Blocks(First(s, s.procs[i].role))
    ensures Good(Step(s, i), size)
  {
    var t := WithFirst(s, s.procs[i].role, Down(First(s, s.procs[i].role), i));
    assert Listed(t);
    MovedAwake(t, i, AtMutex);
  }

  lemma StepFirst(s: System, i: nat, size: nat)
    requires Good(s, size) && i < |s.procs| && s.procs[i].stage.AtFirst?
    ensures Good(Step(s, i), size)
  {
    if Blocks(First(s, s.procs[i].role)) {
      FirstBlocks(s, i, size);
    } else {
      FirstPasses(s, i, size);
    }
  }

  lemma StepMutex(s: System, i: nat, size: nat)
    requires Good(s, size) && i < |s.procs| && s.procs[i].stage.AtMutex?
    ensures Good(Step(s, i), size)
  {
    var p := s.procs[i].(stage := if Blocks(s.mutex) then InMutex else Inside);
    Moved(s, i, p.stage);
    ListsKept(s.empty.waiting, s.procs, AtEmpty, i, p);
    ListsKept(s.full.waiting, s.procs, AtFull, i, p);
    if p.stage.InMutex? {
      ListsJoined(s.mutex.waiting, s.procs, AtMutexLine, i, p);
    } else {
      ListsKept(s.mutex.waiting, s.procs, AtMutexLine, i, p);
    }
  }

  /** V(mutex) up to the step of its caller: the mutex has one unit too many. */
  lemma WakeMutex(s: System, size: nat, i: nat)
    requires Good(s, size) && i < |s.procs| && Runnable(s.procs[i])
    ensures var t := Wake(s.(mutex := Up(s.mutex)), s.mutex, Inside);
            && Listed(t) && GoodSem(t.mutex) && t.procs[i] == s.procs[i]
            && t.(procs := s.procs, mutex := s.mutex) == s
            && Units(t.mutex) + Sum(t.procs, Critical) == 2
            && Sum(t.procs, Claim) == Sum(s.procs, Claim) && Sum(t.procs, Filled) == Sum(s.procs, Filled)
  {
    var w := s.mutex.waiting;
    if Wakes(s.mutex) {
      ListsHead(w, s.procs, AtMutexLine);
      var q := s.procs[w[0]].(stage := Inside);
      ListsLeft(w, s.procs, AtMutexLine, q);
      Moved(s.(mutex := Up(s.mutex)), w[0], Inside);
      ListsKept(s.empty.waiting, s.procs, AtEmpty, w[0], q);
      ListsKept(s.full.waiting, s.procs, AtFull, w[0], q);
    }
  }

  lemma StepLeave(s: System, i: nat, size: nat)
    requires Good(s, size) && i < |s.procs| && s.procs[i].stage.AtLeave?
    ensures Good(Step(s, i), size)
  {
    var t := Wake(s.(mutex := Up(s.mutex)), s.mutex, Inside);
    WakeMutex(s, size, i);
    MovedAwake(t, i, AtSecond);
  }

  /** V of the second semaphore up to the step of its caller: there is one slot too many. */
  lemma WakeFull(s: System, size: nat, i: nat)
    requires Good(s, size) && i < |s.procs| && Runnable(s.procs[i])
    ensures var t := Wake(s.(full := Up(s.full)), s.full, AtMutex);
            && Listed(t) && GoodSem(t.full) && t.procs[i] == s.procs[i]
            && t.(procs := s.procs, full := s.full) == s
            && Units(t.full) + Sum(t.procs, Claim) == Units(s.full) + Sum(s.procs, Claim) + 1
            && Units(t.full) + Sum(t.procs, Filled) == Units(s.full) + Sum(s.procs, Filled) + 1
            && Sum(t.procs, Critical) == Sum(s.procs, Critical)
  {
    var w := s.full.waiting;
    if Wakes(s.full) {
      ListsHead(w, s.procs, AtFull);
      var q := s.procs[w[0]].(stage := AtMutex);
      ListsLeft(w, s.procs, AtFull, q);
      Moved(s.(full := Up(s.full)), w[0], AtMutex);
      ListsKept(s.empty.waiting, s.procs, AtEmpty, w[0], q);
      ListsKept(s.mutex.waiting, s.procs, AtMutexLine, w[0], q);
    }
  }

  lemma WakeEmpty(s: System, size: nat, i: nat)
    requires Good(s, size) && i < |s.procs| && Runnable(s.procs[i])
    ensures var t := Wake(s.(empty := Up(s.empty)), s.empty, AtMutex);
            && Listed(t) && GoodSem(t.empty) && t.procs[i] == s.procs[i]
            && t.(procs := s.procs, empty := s.empty) == s
            && Units(t.empty) + Sum(t.procs, Claim) == Units(s.empty) + Sum(s.procs, Claim) + 1
            && Sum(t.procs, Filled) == Sum(s.procs, Filled) && Sum(t.procs, Critical) == Sum(s.procs, Critical)
  {
    var w := s.empty.waiting;
    if Wakes(s.empty) {
      ListsHead(w, s.procs, AtEmpty);
      var q := s.procs[w[0]].(stage := AtMutex);
      ListsLeft(w, s.procs, AtEmpty, q);
      Moved(s.(empty := Up(s.empty)), w[0], AtMutex);
      ListsKept(s.full.waiting, s.procs, AtFull, w[0], q);
      ListsKept(s.mutex.waiting, s.procs, AtMutexLine, w[0], q);
    }
  }

  lemma GivesFull(s: System, i: nat, size: nat)
    requires Good(s, size) && i < |s.procs| && s.procs[i] == Proc(Producer, AtSecond)
    ensures Good(Step(s, i), size)
  {
    WakeFull(s, size, i);
    MovedAwake(Wake(s.(full := Up(s.full)), s.full, AtMutex), i, Working);
  }

  lemma GivesEmpty(s: System, i: nat, size: nat)
    requires Good(s, size) && i < |s.procs| && s.procs[i] == Proc(Consumer, AtSecond)
    ensures Good(Step(s, i), size)
  {
    WakeEmpty(s, size, i);
    MovedAwake(Wake(s.(empty := Up(s.empty)), s.empty, AtMutex), i, AtFirst);
  }

  lemma StepSecond(s: System, i: nat, size: nat)
    requires Good(s, size) && i < |s.procs| && s.procs[i].stage.AtSecond?
    ensures Good(Step(s, i), size)
  {
    if s.procs[i].role.Producer? {
      GivesFull(s, i, size);
    } else {
      GivesEmpty(s, i, size);
    }
  }

  lemma StepGood(s: System, i: nat, size: nat)
    requires Good(s, size) && i < |s.procs|
    ensures Good(Step(s, i), size)
  {
    match s.procs[i].stage
    case Working => StepOwn(s, i, size);
    case Inside => StepOwn(s, i, size);
    case AtFirst => StepFirst(s, i, size);
    case AtMutex => StepMutex(s, i, size);
    case AtLeave => StepLeave(s, i, size);
    case AtSecond => StepSecond(s, i, size);
    case _ =>
  }

  lemma {:induction false} SumZero(procs: seq<Proc>, f: Proc -> nat)
    requires forall i :: 0 <= i < |procs| ==> f(procs[i]) == 0
    ensures Sum(procs, f) == 0
  {
    if procs != [] {
      SumZero(procs[..|procs| - 1], f);
    }
  }

  lemma StartGood(roles: seq<Role>, size: nat)
    ensures Good(Start(roles, size), size)
  {
    var s := Start(roles, size);
    SumZero(s.procs, Claim);
    SumZero(s.procs, Filled);
    SumZero(s.procs, Critical);
  }

  lemma {:induction false} RunGood(roles: seq<Role>, size: nat, picks: seq<nat>)
    ensures Good(Run(Start(roles, size), picks), size)
  {
    var s := Start(roles, size);
    if picks == [] {
      StartGood(roles, size);
    } else {
      RunGood(roles, size, picks[..|picks| - 1]);
      var t := Run(s, picks[..|picks| - 1]);
      if picks[|picks| - 1] < |t.procs| {
        StepGood(t, picks[|picks| - 1], size);
      }
    }
  }

  // ----- what holds in every reachable state -----

  lemma {:induction false} SumPair(procs: seq<Proc>, f: Proc -> nat, i: nat, j: nat)
    requires i < j < |procs|
    ensures Sum(procs, f) >= f(procs[i]) + f(procs[j])
  {
    var n := |procs| - 1;
    if j < n {
      SumPair(procs[..n], f, i, j);
    } else {
      SumUpdate(procs[..n], i, procs[i], f);
    }
  }

  lemma {:induction false} SumLeast(procs: seq<Proc>, f: Proc -> nat, g: Proc -> nat)
    requires forall p :: f(p) <= g(p)
    ensures Sum(procs, f) <= Sum(procs, g)
  {
    if procs != [] {
      SumLeast(procs[..|procs| - 1], f, g);
    }
  }

  /** Free and filled slots and the claims of processes in flight add up to the size, whatever
      the interleaving, and so there are never less than no items or more than the buffer
      holds. */
  lemma SlotsConserved(roles: seq<Role>, size: nat, picks: seq<nat>)
    ensures var s := Run(Start(roles, size), picks);
            && Units(s.empty) + Units(s.full) + Sum(s.procs, Claim) == size
            && Units(s.empty) >= 0 && Units(s.full) >= 0
            && 0 <= s.items <= size
  {
    var s := Run(Start(roles, size), picks);
    RunGood(roles, size, picks);
    SumLeast(s.procs, Filled, Claim);
  }

  /** No two processes are between P(mutex) and V(mutex). */
  lemma MutualExclusion(roles: seq<Role>, size: nat, picks: seq<nat>, i: nat, j: nat)
    requires i < j < |roles|
    ensures var s := Run(Start(roles, size), picks);
            Critical(s.procs[i]) + Critical(s.procs[j]) <= 1
  {
    var s := Run(Start(roles, size), picks);
    RunGood(roles, size, picks);
    SumPair(s.procs, Critical, i, j);
  }

  /** With a producer, a consumer and room for an item, some process can always go on. */
  lemma NoDeadlock(roles: seq<Role>, size: nat, picks: seq<nat>, a: nat, b: nat)
    requires size >= 1 && a < |roles| && b < |roles| && roles[a] == Producer && roles[b] == Consumer
    ensures exists i :: 0 <= i < |roles| && Runnable(Run(Start(roles, size), picks).procs[i])
  {
    var s := Run(Start(roles, size), picks);
    RunGood(roles, size, picks);
    RolesKept(roles, size, picks, a);
    RolesKept(roles, size, picks, b);
    if forall i :: 0 <= i < |roles| ==> !Runnable(s.procs[i]) {
      SumZero(s.procs, Critical);
      forall i | 0 <= i < |roles|
        ensures s.procs[i].stage == InFirst
      {
        assert i in s.mutex.waiting <==> s.procs[i].stage == InMutex;
      }
      SumZero(s.procs, Claim);
      assert false;
    }
  }

  lemma StepRoles(s: System, j: nat, i: nat)
    requires i < |s.procs| && j < |s.procs|
    ensures Step(s, j).procs[i].role == s.procs[i].role
  {
  }

  lemma {:induction false} RolesKept(roles: seq<Role>, size: nat, picks: seq<nat>, i: nat)
    requires i < |roles|
    ensures Run(Start(roles, size), picks).procs[i].role == roles[i]
  {
    if picks != [] {
      var t, j := Run(Start(roles, size), picks[..|picks| - 1]), picks[|picks| - 1];
      RolesKept(roles, size, picks[..|picks| - 1], i);
      if j < |t.procs| {
        StepRoles(t, j, i);
      }
    }
  }
}
