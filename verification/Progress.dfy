/** Nobody starves at the bounded buffer: under every schedule that picks each process again and
    again, every sleeper is woken and every process gets to the buffer. */
module Progress {
  import opened BoundedBuffer
  import opened Divisibility

  function Other(r: Role): Role {
    if r.Producer? then Consumer else Producer
  }

  // ----- infinite schedules -----

  /** For ever: run(t) is the system at time t, and process sched(t) is picked then. */
  datatype Play = Play(run: nat -> System, sched: nat -> nat, size: nat, n: nat)

  ghost predicate PickedFrom(sched: nat -> nat, i: nat, t: nat) {
    exists u: nat :: t <= u && sched(u) == i
  }

  /** Each of n processes is picked again and again. */
  ghost predicate Fair(sched: nat -> nat, n: nat) {
    forall i: nat, t: nat :: i < n ==> PickedFrom(sched, i, t)
  }

  ghost predicate Has(s: System, r: Role) {
    exists i: nat :: i < |s.procs| && s.procs[i].role == r
  }

  predicate Next(p: Play, t: nat)
    requires |p.run(t).procs| == p.n
  {
    p.run(t + 1) == if p.sched(t) < p.n then Step(p.run(t), p.sched(t)) else p.run(t)
  }

  ghost predicate GoodAt(p: Play, t: nat) {
    Good(p.run(t), p.size) && Has(p.run(t), Producer) && Has(p.run(t), Consumer)
  }

  ghost predicate Live(p: Play) {
    && p.size >= 1 && Fair(p.sched, p.n)
    && (forall t: nat :: |p.run(t).procs| == p.n)
    && (forall t: nat :: Next(p, t))
    && (forall t: nat :: GoodAt(p, t))
  }

  lemma Somebody(p: Play, t: nat, r: Role) returns (i: nat)
    requires Live(p)
    ensures i < p.n && p.run(t).procs[i].role == r
  {
    assert GoodAt(p, t);
    assert Has(p.run(t), r);
    i :| i < p.n && p.run(t).procs[i].role == r;
  }

  // ----- a process that is awake -----

  /** Nobody else moves a process that is awake. */
  lemma Unmoved(s: System, size: nat, j: nat, i: nat)
    requires Good(s, size) && i < |s.procs| && j < |s.procs| && i != j && Runnable(s.procs[i])
    ensures Step(s, j).procs[i] == s.procs[i]
  {
    var r := s.procs[j].role;
    if s.procs[j].stage.AtLeave? && s.mutex.waiting != [] {
      ListsHead(s.mutex.waiting, s.procs, AtMutexLine);
    }
    if s.procs[j].stage.AtSecond? && Second(s, r).waiting != [] {
      ListsHead(Second(s, r).waiting, s.procs, if r.Producer? then AtFull else AtEmpty);
    }
  }

  lemma Stays(p: Play, t: nat, i: nat)
    requires Live(p) && i < p.n && Runnable(p.run(t).procs[i]) && p.sched(t) != i
    ensures p.run(t + 1).procs[i] == p.run(t).procs[i]
  {
    assert Next(p, t);
    if p.sched(t) < p.n {
      assert GoodAt(p, t);
      Unmoved(p.run(t), p.size, p.sched(t), i);
    }
  }

  lemma Own(p: Play, t: nat, i: nat, w: nat) returns (u: nat)
    requires Live(p) && i < p.n && Runnable(p.run(t).procs[i]) && t <= w && p.sched(w) == i
    ensures t <= u && p.sched(u) == i && p.run(u).procs[i] == p.run(t).procs[i]
    decreases w - t
  {
    if p.sched(t) == i {
      u := t;
    } else {
      Stays(p, t, i);
      u := Own(p, t + 1, i, w);
    }
  }

  /** How a process that is awake goes on. */
  predicate Onward(p: Proc, q: Proc) {
    q.role == p.role &&
    match p.stage
    case Working => q.stage == AtFirst
    case AtFirst => q.stage == InFirst || q.stage == AtMutex
    case AtMutex => q.stage == InMutex || q.stage == Inside
    case Inside => q.stage == AtLeave
    case AtLeave => q.stage == AtSecond
    case AtSecond => q.stage == if p.role.Producer? then Working else AtFirst
    case _ => false
  }

  lemma StepOnward(s: System, i: nat)
    requires i < |s.procs| && Runnable(s.procs[i])
    ensures Onward(s.procs[i], Step(s, i).procs[i])
  {
  }

  /** A process that is awake makes its next step when it is picked next. */
  lemma NextStep(p: Play, t: nat, i: nat) returns (u: nat)
    requires Live(p) && i < p.n && Runnable(p.run(t).procs[i])
    ensures t <= u && p.sched(u) == i && p.run(u).procs[i] == p.run(t).procs[i]
    ensures Onward(p.run(u).procs[i], p.run(u + 1).procs[i])
  {
    assert PickedFrom(p.sched, i, t);
    var w: nat :| t <= w && p.sched(w) == i;
    u := Own(p, t, i, w);
    assert Next(p, u);
    StepOnward(p.run(u), i);
  }

  // ----- a process that sleeps -----

  /** The semaphore at which p sleeps. */
  function Bed(s: System, p: Proc): Sem {
    if p.stage.InMutex? then s.mutex else First(s, p.role)
  }

  function IndexOf(w: seq<nat>, i: nat): nat {
    if w == [] || w[0] == i then 0 else IndexOf(w[1..], i) + 1
  }

  /** How many are to be woken before i. */
  function Place(s: System, i: nat): nat
    requires i < |s.procs|
  {
    IndexOf(Bed(s, s.procs[i]).waiting, i)
  }

  /** p as it is when V has woken it. */
  function Awake(p: Proc): Proc {
    p.(stage := if p.stage.InMutex? then Inside else AtMutex)
  }

  /** q is about to call V of the semaphore at which p sleeps. */
  predicate Frees(q: Proc, p: Proc) {
    if p.stage.InMutex? then q.stage.AtLeave? else q == Proc(Other(p.role), AtSecond)
  }

  lemma {:induction false} IndexAppend(w: seq<nat>, i: nat, v: seq<nat>)
    requires i in w
    ensures IndexOf(w + v, i) == IndexOf(w, i)
  {
    if w[0] != i {
      assert (w + v)[1..] == w[1..] + v;
      IndexAppend(w[1..], i, v);
    }
  }

  /** Asleep in the same place, no further back; nearer to the front after V. */
  predicate Waits(s: System, t: System, i: nat, freed: bool)
    requires i < |s.procs| && i < |t.procs|
  {
    t.procs[i] == s.procs[i] && Place(t, i) + (if freed then 1 else 0) <= Place(s, i)
  }

  lemma InBed(s: System, size: nat, i: nat)
    requires Good(s, size) && i < |s.procs| && !Runnable(s.procs[i])
    ensures i in Bed(s, s.procs[i]).waiting && Units(Bed(s, s.procs[i])) == 0 && Wakes(Bed(s, s.procs[i]))
  {
    assert i in s.mutex.waiting <==> AtMutexLine(s.procs[i]);
    assert i in s.empty.waiting <==> AtEmpty(s.procs[i]);
    assert i in s.full.waiting <==> AtFull(s.procs[i]);
  }

  /** V of the semaphore at which i sleeps wakes i or brings it forward. */
  lemma Freeing(s: System, size: nat, j: nat, i: nat)
    requires Good(s, size) && i < |s.procs| && j < |s.procs| && !Runnable(s.procs[i])
    requires Frees(s.procs[j], s.procs[i])
    ensures Step(s, j).procs[i] == Awake(s.procs[i]) || Waits(s, Step(s, j), i, true)
  {
    InBed(s, size, i);
    var r, w := s.procs[j].role, Bed(s, s.procs[i]).waiting;
    ListsHead(w, s.procs, if s.procs[j].stage.AtLeave? then AtMutexLine else if r.Producer? then AtFull else AtEmpty);
  }

  /** P at the end of a list changes no place in it. */
  lemma Joining(s: System, size: nat, j: nat, i: nat)
    requires Good(s, size) && i < |s.procs| && j < |s.procs| && !Runnable(s.procs[i])
    requires s.procs[j].stage.AtFirst? || s.procs[j].stage.AtMutex?
    ensures Waits(s, Step(s, j), i, false)
  {
    InBed(s, size, i);
    IndexAppend(Bed(s, s.procs[i]).waiting, i, [j]);
  }

  /** Nor does V of another semaphore. */
  lemma LeavingOther(s: System, size: nat, j: nat, i: nat)
    requires Good(s, size) && i < |s.procs| && j < |s.procs| && s.procs[i].stage.InFirst? && s.procs[j].stage.AtLeave?
    ensures Waits(s, Step(s, j), i, false)
  {
    if s.mutex.waiting != [] {
      ListsHead(s.mutex.waiting, s.procs, AtMutexLine);
    }
  }

  lemma GivingOther(s: System, size: nat, j: nat, i: nat)
    requires Good(s, size) && i < |s.procs| && j < |s.procs| && !Runnable(s.procs[i])
    requires s.procs[j].stage.AtSecond? && !Frees(s.procs[j], s.procs[i])
    ensures Waits(s, Step(s, j), i, false)
  {
    var r := s.procs[j].role;
    if Second(s, r).waiting != [] {
      ListsHead(Second(s, r).waiting, s.procs, if r.Producer? then AtFull else AtEmpty);
    }
  }

  /** While i sleeps its place never grows, and it shrinks with each V of its semaphore. */
  lemma Sleeping(s: System, size: nat, j: nat, i: nat)
    requires Good(s, size) && i < |s.procs| && j < |s.procs| && !Runnable(s.procs[i])
    ensures var freed := Frees(s.procs[j], s.procs[i]);
            Waits(s, Step(s, j), i, freed) || (freed && Step(s, j).procs[i] == Awake(s.procs[i]))
  {
    if Frees(s.procs[j], s.procs[i]) {
      Freeing(s, size, j, i);
    } else {
      match s.procs[j].stage
      case AtFirst => Joining(s, size, j, i);
      case AtMutex => Joining(s, size, j, i);
      case AtLeave => LeavingOther(s, size, j, i);
      case AtSecond => GivingOther(s, size, j, i);
      case _ =>
    }
  }

  /** Up to time u, i sleeps on or has been woken on the way. */
  lemma Sleeps(p: Play, t: nat, u: nat, i: nat) returns (v: nat)
    requires Live(p) && i < p.n && !Runnable(p.run(t).procs[i]) && t <= u
    ensures t <= v
    ensures p.run(v).procs[i] == Awake(p.run(t).procs[i]) || (v == u && Waits(p.run(t), p.run(u), i, false))
    decreases u - t
  {
    v := t;
    if t < u {
      var s, j := p.run(t), p.sched(t);
      assert Next(p, t);
      assert GoodAt(p, t);
      if j < |s.procs| {
        Sleeping(s, p.size, j, i);
      }
      if p.run(t + 1).procs[i] == Awake(s.procs[i]) {
        v := t + 1;
      } else {
        v := Sleeps(p, t + 1, u, i);
      }
    }
  }

  /** After a V at time u, i is awake or nearer to the front. */
  lemma Nearing(p: Play, t: nat, u: nat, i: nat) returns (v: nat)
    requires Live(p) && i < p.n && !Runnable(p.run(t).procs[i]) && t <= u
    requires p.sched(u) < p.n && Frees(p.run(u).procs[p.sched(u)], p.run(t).procs[i])
    ensures t < v
    ensures p.run(v).procs[i] == Awake(p.run(t).procs[i]) || Waits(p.run(t), p.run(v), i, true)
  {
    v := Sleeps(p, t, u, i);
    if p.run(v).procs[i] != Awake(p.run(t).procs[i]) {
      assert GoodAt(p, u);
      assert Next(p, u);
      Sleeping(p.run(u), p.size, p.sched(u), i);
      v := u + 1;
    }
  }

  // ----- the mutex comes round -----

  lemma {:induction false} FindPositive(procs: seq<Proc>, f: Proc -> nat) returns (i: nat)
    requires Sum(procs, f) > 0
    ensures i < |procs| && f(procs[i]) > 0
  {
    var n := |procs| - 1;
    if f(procs[n]) > 0 {
      i := n;
    } else {
      i := FindPositive(procs[..n], f);
    }
  }

  /** Somebody between P(mutex) and V(mutex) comes to V(mutex). */
  lemma Leaves(p: Play, t: nat, h: nat) returns (u: nat)
    requires Live(p) && h < p.n && Critical(p.run(t).procs[h]) == 1
    ensures t <= u && p.sched(u) == h && p.run(u).procs[h].stage == AtLeave
  {
    u := NextStep(p, t, h);
    if p.run(t).procs[h].stage.Inside? {
      u := NextStep(p, u + 1, h);
    }
  }

  lemma Holder(s: System, size: nat, i: nat) returns (h: nat)
    requires Good(s, size) && i < |s.procs| && s.procs[i].stage.InMutex?
    ensures h < |s.procs| && Critical(s.procs[h]) == 1
  {
    InBed(s, size, i);
    h := FindPositive(s.procs, Critical);
  }

  /** Who sleeps at the mutex is woken. */
  lemma {:induction false} MutexComes(p: Play, t: nat, i: nat) returns (v: nat)
    requires Live(p) && i < p.n && p.run(t).procs[i].stage == InMutex
    ensures t < v && p.run(v).procs[i] == p.run(t).procs[i].(stage := Inside)
    decreases Place(p.run(t), i)
  {
    assert GoodAt(p, t);
    var h := Holder(p.run(t), p.size, i);
    var u := Leaves(p, t, h);
    v := Nearing(p, t, u, i);
    if p.run(v).procs[i].stage != Inside {
      v := MutexComes(p, v, i);
    }
  }

  // ----- a unit comes to the first semaphore -----

  /** The stages up to V of the second semaphore. */
  function Ahead(stage: Stage): nat {
    match stage
    case AtMutex => 4
    case InMutex => 3
    case Inside => 2
    case AtLeave => 1
    case _ => 0
  }

  /** Who owes a unit gives it. */
  lemma {:induction false} Pays(p: Play, t: nat, h: nat) returns (u: nat)
    requires Live(p) && h < p.n && Claim(p.run(t).procs[h]) == 1
    ensures t <= u && p.sched(u) == h && p.run(u).procs[h] == p.run(t).procs[h].(stage := AtSecond)
    decreases Ahead(p.run(t).procs[h].stage)
  {
    if p.run(t).procs[h].stage.InMutex? {
      u := MutexComes(p, t, h);
      u := Pays(p, u, h);
    } else {
      u := NextStep(p, t, h);
      if p.run(t).procs[h].stage != AtSecond {
        u := Pays(p, u + 1, h);
      }
    }
  }

  /** Nobody of role q owes a unit. */
  ghost predicate Quiet(s: System, q: Role) {
    forall i :: 0 <= i < |s.procs| && s.procs[i].role == q ==> Claim(s.procs[i]) == 0
  }

  /** While nobody of role q owes a unit, their first semaphore loses none. */
  lemma QuietStep(s: System, size: nat, j: nat, q: Role)
    requires Good(s, size) && j < |s.procs| && Quiet(s, q)
    ensures Quiet(Step(s, j), q) ==> Units(First(Step(s, j), q)) >= Units(First(s, q))
  {
    if s.procs[j] == Proc(q, AtFirst) && !Blocks(First(s, q)) {
      assert Claim(Step(s, j).procs[j]) == 1;
    }
  }

  /** V of a semaphore where somebody sleeps. */
  lemma GivesToSleeper(s: System, size: nat, q: Role, k: nat)
    requires Good(s, size) && k < |s.procs| && s.procs[k] == Proc(q, AtSecond) && First(s, Other(q)).waiting != []
    ensures var t, w := Step(s, k), First(s, Other(q)).waiting;
            && t.mutex == s.mutex && First(t, q) == First(s, q)
            && w[0] < |s.procs| && First(t, Other(q)).waiting == w[1..] && t.procs[w[0]] == Proc(Other(q), AtMutex)
            && forall j :: 0 <= j < |s.procs| && j != k && j != w[0] ==> t.procs[j] == s.procs[j]
  {
    var x := Second(s, q);
    var u := WithSecond(s, q, Up(x));
    assert x == First(s, Other(q)) && Wakes(x);
    ListsHead(x.waiting, s.procs, if q.Producer? then AtFull else AtEmpty);
    assert Wake(u, x, AtMutex).procs == s.procs[x.waiting[0] := Proc(Other(q), AtMutex)];
  }

  /** V of the second semaphore of a role, which is the first one of the other role. */
  lemma Gives(s: System, size: nat, q: Role, k: nat)
    requires Good(s, size) && k < |s.procs| && s.procs[k] == Proc(q, AtSecond)
    ensures var t, w := Step(s, k), First(s, Other(q)).waiting;
            && Good(t, size) && t.mutex == s.mutex && First(t, q) == First(s, q)
            && (w != [] ==>
                  w[0] < |s.procs| && First(t, Other(q)).waiting == w[1..] && t.procs[w[0]] == Proc(Other(q), AtMutex))
            && (w == [] ==> Units(First(t, Other(q))) == Units(First(s, Other(q))) + 1)
            && forall j :: 0 <= j < |s.procs| && j != k && (w == [] || j != w[0]) ==> t.procs[j] == s.procs[j]
  {
    StepGood(s, k, size);
    if First(s, Other(q)).waiting != [] {
      GivesToSleeper(s, size, q, k);
    }
  }

  /** A unit given to role q is there or in the hands of somebody of that role. */
  lemma QuietGives(s: System, size: nat, j: nat, q: Role)
    requires Good(s, size) && j < |s.procs| && s.procs[j] == Proc(Other(q), AtSecond) && Quiet(s, q)
    ensures Quiet(Step(s, j), q) ==> Units(First(Step(s, j), q)) >= 1
  {
    Gives(s, size, Other(q), j);
    var w := First(s, q).waiting;
    if w != [] {
      assert Claim(Step(s, j).procs[w[0]]) == 1;
    }
  }

  lemma QuietFor(p: Play, t: nat, u: nat, q: Role) returns (v: nat)
    requires Live(p) && t <= u && Quiet(p.run(t), q)
    ensures t <= v <= u
    ensures !Quiet(p.run(v), q) || (v == u && Units(First(p.run(u), q)) >= Units(First(p.run(t), q)))
    decreases u - t
  {
    v := t;
    if t < u {
      assert Next(p, t);
      if p.sched(t) < p.n {
        assert GoodAt(p, t);
        QuietStep(p.run(t), p.size, p.sched(t), q);
      }
      if Quiet(p.run(t + 1), q) {
        v := QuietFor(p, t + 1, u, q);
      } else {
        v := t + 1;
      }
    }
  }

  /** Somebody of role q gives the unit that he owes. */
  lemma Paid(p: Play, t: nat, q: Role) returns (u: nat)
    requires Live(p) && !Quiet(p.run(t), q)
    ensures t <= u && p.sched(u) < p.n && p.run(u).procs[p.sched(u)] == Proc(q, AtSecond)
  {
    var h: nat :| h < |p.run(t).procs| && p.run(t).procs[h].role == q && Claim(p.run(t).procs[h]) != 0;
    u := Pays(p, t, h);
  }

  /** Where there is a unit, somebody of role q takes one. */
  lemma Takes(p: Play, t: nat, q: Role, b: nat) returns (u: nat)
    requires Live(p) && b < p.n && p.run(t).procs[b].role == q
    requires Quiet(p.run(t), q) ==> Units(First(p.run(t), q)) >= 1
    ensures t <= u && !Quiet(p.run(u), q)
    decreases p.run(t).procs[b].stage == Working
  {
    u := t;
    if Quiet(p.run(t), q) {
      assert GoodAt(p, t);
      Unslept(p.run(t), p.size, q, b);
      var w := NextStep(p, t, b);
      u := QuietFor(p, t, w, q);
      if Quiet(p.run(u), q) {
        if p.run(t).procs[b].stage == Working {
          u := QuietFor(p, w, w + 1, q);
          if Quiet(p.run(u), q) {
            u := Takes(p, w + 1, q, b);
          }
        } else {
          TakesNow(p, w, q, b);
          u := w + 1;
        }
      }
    }
  }

  lemma Unslept(s: System, size: nat, q: Role, b: nat)
    requires Good(s, size) && b < |s.procs| && s.procs[b].role == q && Claim(s.procs[b]) == 0
    requires Units(First(s, q)) >= 1
    ensures s.procs[b].stage == Working || s.procs[b].stage == AtFirst
  {
    if s.procs[b].stage == InFirst {
      InBed(s, size, b);
    }
  }

  lemma TakesNow(p: Play, t: nat, q: Role, b: nat)
    requires Live(p) && b < p.n && p.sched(t) == b
    requires p.run(t).procs[b] == Proc(q, AtFirst) && Units(First(p.run(t), q)) >= 1
    ensures !Quiet(p.run(t + 1), q)
  {
    assert GoodAt(p, t) && Next(p, t);
    assert p.run(t + 1).procs[b] == Proc(q, AtMutex);
  }

  lemma Owing(s: System, size: nat, r: Role) returns (h: nat)
    requires Good(s, size) && size >= 1 && Units(First(s, r)) == 0
    ensures Units(First(s, Other(r))) >= 1 || (h < |s.procs| && Claim(s.procs[h]) == 1)
  {
    h := 0;
    if Units(First(s, Other(r))) < 1 {
      h := FindPositive(s.procs, Claim);
    }
  }

  /** Where there was no unit either, h brings one. */
  lemma Brought(p: Play, t: nat, q: Role, h: nat) returns (v: nat)
    requires Live(p) && Quiet(p.run(t), q) && h < p.n
    requires Claim(p.run(t).procs[h]) == 1 && p.run(t).procs[h].role == Other(q)
    ensures t <= v && (Quiet(p.run(v), q) ==> Units(First(p.run(v), q)) >= 1)
  {
    var w := Pays(p, t, h);
    v := QuietFor(p, t, w, q);
    if Quiet(p.run(v), q) {
      assert GoodAt(p, w) && Next(p, w);
      QuietGives(p.run(w), p.size, h, q);
      v := w + 1;
    }
  }

  /** When the first semaphore of r has no unit, somebody of the other role comes to give one. */
  lemma Supply(p: Play, t: nat, r: Role) returns (u: nat)
    requires Live(p) && Units(First(p.run(t), r)) == 0
    ensures t <= u && p.sched(u) < p.n && p.run(u).procs[p.sched(u)] == Proc(Other(r), AtSecond)
  {
    var q, v := Other(r), t;
    if Quiet(p.run(t), q) {
      assert GoodAt(p, t);
      var h := Owing(p.run(t), p.size, r);
      if Units(First(p.run(t), q)) < 1 {
        v := Brought(p, t, q, h);
      }
      var b := Somebody(p, v, q);
      v := Takes(p, v, q, b);
    }
    u := Paid(p, v, q);
  }

  /** Who sleeps at the first semaphore is woken. */
  lemma {:induction false} UnitComes(p: Play, t: nat, i: nat) returns (v: nat)
    requires Live(p) && i < p.n && p.run(t).procs[i].stage == InFirst
    ensures t < v && p.run(v).procs[i] == p.run(t).procs[i].(stage := AtMutex)
    decreases Place(p.run(t), i)
  {
    assert GoodAt(p, t);
    InBed(p.run(t), p.size, i);
    var u := Supply(p, t, p.run(t).procs[i].role);
    v := Nearing(p, t, u, i);
    if p.run(v).procs[i].stage != AtMutex {
      v := UnitComes(p, v, i);
    }
  }

  // ----- everybody gets to the buffer -----

  /** The stages up to putting or taking an item. */
  function Before(p: Proc): nat {
    match p.stage
    case AtLeave => 7
    case AtSecond => 6
    case Working => 5
    case AtFirst => 4
    case InFirst => 3
    case AtMutex => 2
    case InMutex => 1
    case Inside => 0
  }

  lemma {:induction false} GetsIn(p: Play, t: nat, i: nat) returns (u: nat)
    requires Live(p) && i < p.n
    ensures t <= u && p.sched(u) == i && p.run(u).procs[i] == p.run(t).procs[i].(stage := Inside)
    decreases Before(p.run(t).procs[i])
  {
    match p.run(t).procs[i].stage
    case InFirst =>
      u := UnitComes(p, t, i);
      u := GetsIn(p, u, i);
    case InMutex =>
      u := MutexComes(p, t, i);
      u := GetsIn(p, u, i);
    case Inside =>
      u := NextStep(p, t, i);
    case _ =>
      u := NextStep(p, t, i);
      u := GetsIn(p, u + 1, i);
  }

  // ----- the runs of the system -----

  /** The first t picks. */
  function Picks(sched: nat -> nat, t: nat): (picks: seq<nat>)
    ensures |picks| == t && forall u :: 0 <= u < t ==> picks[u] == sched(u)
  {
    if t == 0 then [] else Picks(sched, t - 1) + [sched(t - 1)]
  }

  /** The system after t picks. */
  function After(roles: seq<Role>, size: nat, sched: nat -> nat, t: nat): (s: System)
    ensures |s.procs| == |roles|
  {
    Run(Start(roles, size), Picks(sched, t))
  }

  function PlayOf(roles: seq<Role>, size: nat, sched: nat -> nat): Play {
    Play((t: nat) => After(roles, size, sched, t), sched, size, |roles|)
  }

  lemma PlayLive(roles: seq<Role>, size: nat, sched: nat -> nat)
    requires size >= 1 && Producer in roles && Consumer in roles && Fair(sched, |roles|)
    ensures Live(PlayOf(roles, size, sched))
  {
    var p := PlayOf(roles, size, sched);
    forall t: nat
      ensures Next(p, t) && GoodAt(p, t)
    {
      AfterNext(roles, size, sched, t);
      AfterGood(roles, size, sched, t);
    }
  }

  lemma AfterNext(roles: seq<Role>, size: nat, sched: nat -> nat, t: nat)
    ensures var s, i := After(roles, size, sched, t), sched(t);
            After(roles, size, sched, t + 1) == if i < |roles| then Step(s, i) else s
  {
    assert Picks(sched, t + 1)[..t] == Picks(sched, t);
  }

  lemma AfterGood(roles: seq<Role>, size: nat, sched: nat -> nat, t: nat)
    requires Producer in roles && Consumer in roles
    ensures var s := After(roles, size, sched, t); Good(s, size) && Has(s, Producer) && Has(s, Consumer)
  {
    RunGood(roles, size, Picks(sched, t));
    RolePresent(roles, size, sched, t, Producer);
    RolePresent(roles, size, sched, t, Consumer);
  }

  lemma RolePresent(roles: seq<Role>, size: nat, sched: nat -> nat, t: nat, r: Role)
    requires r in roles
    ensures Has(After(roles, size, sched, t), r)
  {
    var i: nat :| i < |roles| && roles[i] == r;
    RolesKept(roles, size, Picks(sched, t), i);
  }

  /** Under every schedule that picks each process again and again, whoever sleeps at any time
      is woken later. */
  lemma EverySleeperWoken(roles: seq<Role>, size: nat, sched: nat -> nat, t: nat, i: nat) returns (u: nat)
    requires size >= 1 && Producer in roles && Consumer in roles && Fair(sched, |roles|)
    requires i < |roles| && !Runnable(After(roles, size, sched, t).procs[i])
    ensures t < u && After(roles, size, sched, u).procs[i] == Awake(After(roles, size, sched, t).procs[i])
  {
    var p := PlayOf(roles, size, sched);
    PlayLive(roles, size, sched);
    if p.run(t).procs[i].stage.InMutex? {
      u := MutexComes(p, t, i);
    } else {
      u := UnitComes(p, t, i);
    }
  }

  /** And each process comes to put or take an item again and again. */
  lemma NobodyStarves(roles: seq<Role>, size: nat, sched: nat -> nat, t: nat, i: nat) returns (u: nat)
    requires size >= 1 && Producer in roles && Consumer in roles && Fair(sched, |roles|) && i < |roles|
    ensures t <= u && sched(u) == i && After(roles, size, sched, u).procs[i] == Proc(roles[i], Inside)
  {
    var p := PlayOf(roles, size, sched);
    PlayLive(roles, size, sched);
    u := GetsIn(p, t, i);
    RolesKept(roles, size, Picks(sched, u), i);
  }

  // ----- going on after a finite run -----

  /** past, and from then on each of n processes in turn. */
  function InTurn(past: seq<nat>, n: nat): nat -> nat
    requires n > 0
  {
    (t: nat) => if t < |past| then past[t] else (t - |past|) % n
  }

  lemma TurnComes(n: nat, i: nat, t: nat) returns (u: nat)
    requires i < n
    ensures t <= u && u % n == i
  {
    var m := n * t;
    u := m + i;
    MulAtLeast(n, t);
    ModUnique(n, u, t, i);
  }

  lemma InTurnFair(past: seq<nat>, n: nat)
    requires n > 0
    ensures Fair(InTurn(past, n), n)
  {
    forall i: nat, t: nat | i < n
      ensures PickedFrom(InTurn(past, n), i, t)
    {
      var u := TurnComes(n, i, t);
      assert InTurn(past, n)(|past| + u) == u % n;
    }
  }

  /** Whatever has happened so far, each process can come to put or take an item. */
  lemma EveryoneGoesOn(roles: seq<Role>, size: nat, past: seq<nat>, i: nat) returns (picks: seq<nat>)
    requires size >= 1 && Producer in roles && Consumer in roles && i < |roles|
    ensures Run(Start(roles, size), past + picks).procs[i] == Proc(roles[i], Inside)
  {
    var sched := InTurn(past, |roles|);
    InTurnFair(past, |roles|);
    var u := NobodyStarves(roles, size, sched, |past|, i);
    var all := Picks(sched, u);
    picks := all[|past|..];
    assert all == past + picks;
  }
}
