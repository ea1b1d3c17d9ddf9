/** Families of first-in-first-out queues from which entries can be removed, and their runs. */
module Queues {
  import opened Options

  function Without<T>(q: seq<T>, k: int): seq<T>
    requires 0 <= k < |q|
  {
    q[..k] + q[k + 1..]
  }

  datatype Op<T> = Init(h: int) | Enqueue(h: int, v: T) | Dequeue(h: int) | Remove(h: int, k: int)

  ghost predicate Allowed<T>(c: map<int, seq<T>>, op: Op<T>) {
    match op
    case Init(h) => h in c ==> c[h] == []
    case Enqueue(h, _) => h in c
    case Dequeue(h) => h in c
    case Remove(h, k) => h in c && 0 <= k < |c[h]|
  }

  ghost function Apply<T>(c: map<int, seq<T>>, op: Op<T>): map<int, seq<T>>
    requires Allowed(c, op)
  {
    match op
    case Init(h) => c[h := []]
    case Enqueue(h, v) => c[h := c[h] + [v]]
    case Dequeue(h) => if c[h] == [] then c else c[h := c[h][1..]]
    case Remove(h, k) => c[h := Without(c[h], k)]
  }

  // ----- runs -----

  /** What a run has done so far: the queues, the values delivered by each head, in order, and
      the values taken out by removal. */
  datatype History = History(c: map<int, seq<int>>, got: map<int, seq<int>>, removed: set<int>)

  function Lookup(m: map<int, seq<int>>, h: int): seq<int> {
    if h in m then m[h] else []
  }

  /** The values delivered after one operation more. */
  ghost function Delivered(c: map<int, seq<int>>, got: map<int, seq<int>>, op: Op<int>): map<int, seq<int>>
    requires Allowed(c, op)
  {
    if op.Dequeue? && c[op.h] != [] then got[op.h := Lookup(got, op.h) + [c[op.h][0]]] else got
  }

  ghost function Record(s: History, op: Op<int>): History
    requires Allowed(s.c, op)
  {
    History(Apply(s.c, op), Delivered(s.c, s.got, op), if op.Remove? then s.removed + {s.c[op.h][op.k]} else s.removed)
  }

  /** The history of a run of allowed operations, if they all are. */
  ghost function Run(ops: seq<Op<int>>): Option<History> {
    if ops == [] then Some(History(map[], map[], {}))
    else
      var before := Run(ops[..|ops| - 1]);
      if before.None? || !Allowed(before.value.c, ops[|ops| - 1]) then None
      else Some(Record(before.value, ops[|ops| - 1]))
  }

  /** Entries more after an operation. */
  ghost function Growth<T>(c: map<int, seq<T>>, op: Op<T>): int
    requires Allowed(c, op)
  {
    match op
    case Init(_) => 0
    case Enqueue(_, _) => 1
    case Dequeue(h) => if c[h] == [] then 0 else -1
    case Remove(_, _) => -1
  }

  /** How many values wait in all queues after a run. */
  ghost function Waiting(ops: seq<Op<int>>): int
    requires Run(ops).Some?
  {
    if ops == [] then 0
    else Waiting(ops[..|ops| - 1]) + Growth(Run(ops[..|ops| - 1]).value.c, ops[|ops| - 1])
  }

  /** Delivered and then waiting values of a head. */
  ghost function Line(s: History, h: int): seq<int> {
    Lookup(s.got, h) + Lookup(s.c, h)
  }

  ghost predicate Increasing(q: seq<int>) {
    forall i, j :: 0 <= i < j < |q| ==> q[i] < q[j]
  }

  /** The values on a line were enqueued at its head, in that order, and not removed. */
  ghost predicate InOrder(ops: seq<Op<int>>, removed: set<int>, h: int, line: seq<int>) {
    Increasing(line) && forall i :: 0 <= i < |line| ==> Placed(ops, removed, h, line[i])
  }

  ghost predicate Placed(ops: seq<Op<int>>, removed: set<int>, h: int, v: int) {
    0 <= v < |ops| && ops[v] == Enqueue(h, v) && v !in removed
  }

  /** Each value enqueued is delivered or waiting at its own head, or was removed, and never
      two of these; delivery follows the order of enqueueing. */
  ghost predicate Fifo(ops: seq<Op<int>>, s: History) {
    && (forall h :: InOrder(ops, s.removed, h, Line(s, h)))
    && (forall v :: v in s.removed ==> 0 <= v < |ops|)
    && (forall v :: 0 <= v < |ops| && ops[v].Enqueue? ==> Accounted(s, ops[v].h, v))
  }

  ghost predicate Accounted(s: History, h: int, v: int) {
    v in s.removed || v in Line(s, h)
  }

  lemma LineEnqueue(s: History, g: int, v: int, h: int)
    requires g in s.c
    ensures Line(Record(s, Enqueue(g, v)), h) == if h == g then Line(s, h) + [v] else Line(s, h)
  {
  }

  lemma LineInit(s: History, g: int, h: int)
    requires g in s.c ==> s.c[g] == []
    ensures Line(Record(s, Init(g)), h) == Line(s, h)
  {
  }

  lemma LineDequeue(s: History, g: int, h: int)
    requires g in s.c
    ensures Line(Record(s, Dequeue(g)), h) == Line(s, h)
  {
    if g == h && s.c[h] != [] {
      assert s.c[h] == [s.c[h][0]] + s.c[h][1..];
    }
  }

  lemma RecordRemove(s: History, g: int, k: int, h: int)
    requires g in s.c && 0 <= k < |s.c[g]|
    ensures Line(Record(s, Remove(g, k)), h) == Lookup(s.got, h) + if h == g then Without(s.c[g], k) else Lookup(s.c, h)
  {
  }

  /** The lines that a removal concerns, before and after. */
  lemma LineRemove(s: History, g: int, k: int, h: int) returns (line: seq<int>, gone: seq<int>, at: int, after: seq<int>)
    requires g in s.c && 0 <= k < |s.c[g]|
    ensures line == Line(s, h) && gone == Line(s, g) && after == Line(Record(s, Remove(g, k)), h)
    ensures 0 <= at < |gone| && gone[at] == s.c[g][k] && (h == g ==> line == gone)
    ensures after == if h == g then Without(line, at) else line
  {
    var a, b := Lookup(s.got, g), s.c[g];
    RecordRemove(s, g, k, h);
    WithoutBehind(a, b, k);
    gone, at := Line(s, g), |a| + k;
    if h == g {
      line, after := gone, Without(gone, at);
    } else {
      line, after := Line(s, h), Line(s, h);
    }
  }

  lemma WithoutBehind(a: seq<int>, b: seq<int>, k: int)
    requires 0 <= k < |b|
    ensures Without(a + b, |a| + k) == a + Without(b, k) && (a + b)[|a| + k] == b[k]
  {
  }

  lemma InOrderLater(ops: seq<Op<int>>, op: Op<int>, removed: set<int>, h: int, line: seq<int>)
    requires InOrder(ops, removed, h, line)
    ensures InOrder(ops + [op], removed, h, line)
  {
    forall i | 0 <= i < |line|
      ensures Placed(ops + [op], removed, h, line[i])
    {
      assert Placed(ops, removed, h, line[i]);
    }
  }

  lemma InOrderAppend(ops: seq<Op<int>>, removed: set<int>, h: int, line: seq<int>)
    requires InOrder(ops, removed, h, line) && |ops| !in removed
    ensures InOrder(ops + [Enqueue(h, |ops|)], removed, h, line + [|ops|])
  {
    InOrderLater(ops, Enqueue(h, |ops|), removed, h, line);
    forall i | 0 <= i < |line|
      ensures line[i] < |ops|
    {
      assert Placed(ops, removed, h, line[i]);
    }
  }

  /** The same line with one value more removed elsewhere. */
  lemma InOrderOther(ops: seq<Op<int>>, removed: set<int>, h: int, line: seq<int>, v: int)
    requires InOrder(ops, removed, h, line) && forall i :: 0 <= i < |line| ==> line[i] != v
    ensures InOrder(ops, removed + {v}, h, line)
  {
    forall i | 0 <= i < |line|
      ensures Placed(ops, removed + {v}, h, line[i])
    {
      assert Placed(ops, removed, h, line[i]);
    }
  }

  lemma InOrderWithout(ops: seq<Op<int>>, removed: set<int>, h: int, line: seq<int>, at: int)
    requires InOrder(ops, removed, h, line) && 0 <= at < |line|
    ensures InOrder(ops, removed, h, Without(line, at))
    ensures forall i :: 0 <= i < |Without(line, at)| ==> Without(line, at)[i] != line[at]
  {
    var rest := Without(line, at);
    forall i | 0 <= i < |rest|
      ensures Placed(ops, removed, h, rest[i])
    {
      assert Placed(ops, removed, h, line[if i >= at then i + 1 else i]);
    }
  }

  lemma InOrderRemove(ops: seq<Op<int>>, removed: set<int>, g: int, at: int, gone: seq<int>, h: int, line: seq<int>)
    requires InOrder(ops, removed, g, gone) && 0 <= at < |gone|
    requires InOrder(ops, removed, h, line) && (h == g ==> line == gone)
    ensures InOrder(ops, removed + {gone[at]}, h, if h == g then Without(line, at) else line)
  {
    if h == g {
      InOrderWithout(ops, removed, h, line, at);
      InOrderOther(ops, removed, h, Without(line, at), gone[at]);
    } else {
      assert Placed(ops, removed, g, gone[at]);
      forall i | 0 <= i < |line|
        ensures line[i] != gone[at]
      {
        assert Placed(ops, removed, h, line[i]);
      }
      InOrderOther(ops, removed, h, line, gone[at]);
    }
  }

  lemma FifoStep(ops: seq<Op<int>>, s: History, op: Op<int>)
    requires Fifo(ops, s) && Allowed(s.c, op) && (op.Enqueue? ==> op.v == |ops|)
    ensures Fifo(ops + [op], Record(s, op))
  {
    var s', more := Record(s, op), ops + [op];
    forall h
      ensures InOrder(more, s'.removed, h, Line(s', h))
    {
      LineStep(ops, s, op, h);
    }
    if op.Remove? {
      assert Placed(ops, s.removed, op.h, Line(s, op.h)[|Lookup(s.got, op.h)| + op.k]);
    }
    forall v | 0 <= v < |more| && more[v].Enqueue?
      ensures Accounted(s', more[v].h, v)
    {
      AccountedStep(ops, s, op, v);
    }
  }

  lemma LineStep(ops: seq<Op<int>>, s: History, op: Op<int>, h: int)
    requires Fifo(ops, s) && Allowed(s.c, op) && (op.Enqueue? ==> op.v == |ops|)
    ensures InOrder(ops + [op], Record(s, op).removed, h, Line(Record(s, op), h))
  {
    assert InOrder(ops, s.removed, h, Line(s, h));
    if op.Enqueue? {
      assert |ops| !in s.removed;
    } else if op.Remove? {
      assert InOrder(ops, s.removed, op.h, Line(s, op.h));
    }
    LineOn(ops, s, op, h);
  }

  lemma LineOn(ops: seq<Op<int>>, s: History, op: Op<int>, h: int)
    requires InOrder(ops, s.removed, h, Line(s, h)) && Allowed(s.c, op)
    requires op.Enqueue? ==> op.v == |ops| && |ops| !in s.removed
    requires op.Remove? ==> InOrder(ops, s.removed, op.h, Line(s, op.h))
    ensures InOrder(ops + [op], Record(s, op).removed, h, Line(Record(s, op), h))
  {
    match op
    case Init(g) =>
      LineInit(s, g, h);
      InOrderLater(ops, op, s.removed, h, Line(s, h));
    case Enqueue(g, v) =>
      LineOnEnqueue(ops, s, g, h);
    case Dequeue(g) =>
      LineDequeue(s, g, h);
      InOrderLater(ops, op, s.removed, h, Line(s, h));
    case Remove(g, k) =>
      LineOnRemove(ops, s, g, k, h);
  }

  lemma LineOnEnqueue(ops: seq<Op<int>>, s: History, g: int, h: int)
    requires InOrder(ops, s.removed, h, Line(s, h)) && g in s.c && |ops| !in s.removed
    ensures InOrder(ops + [Enqueue(g, |ops|)], s.removed, h, Line(Record(s, Enqueue(g, |ops|)), h))
  {
    LineEnqueue(s, g, |ops|, h);
    if g == h {
      InOrderAppend(ops, s.removed, h, Line(s, h));
    } else {
      InOrderLater(ops, Enqueue(g, |ops|), s.removed, h, Line(s, h));
    }
  }

  lemma LineOnRemove(ops: seq<Op<int>>, s: History, g: int, k: int, h: int)
    requires InOrder(ops, s.removed, h, Line(s, h)) && InOrder(ops, s.removed, g, Line(s, g))
    requires g in s.c && 0 <= k < |s.c[g]|
    ensures InOrder(ops + [Remove(g, k)], s.removed + {s.c[g][k]}, h, Line(Record(s, Remove(g, k)), h))
  {
    var line, gone, at, after := LineRemove(s, g, k, h);
    RemovedFrom(ops, Remove(g, k), s.removed, h, line, g, gone, at, after);
  }

  lemma RemovedFrom(ops: seq<Op<int>>, op: Op<int>, removed: set<int>, h: int, line: seq<int>, g: int, gone: seq<int>,
                    at: int, after: seq<int>)
    requires InOrder(ops, removed, h, line) && InOrder(ops, removed, g, gone) && 0 <= at < |gone|
    requires (h == g ==> line == gone) && after == if h == g then Without(line, at) else line
    ensures InOrder(ops + [op], removed + {gone[at]}, h, after)
  {
    InOrderRemove(ops, removed, g, at, gone, h, line);
    InOrderLater(ops, op, removed + {gone[at]}, h, after);
  }

  lemma AccountedStep(ops: seq<Op<int>>, s: History, op: Op<int>, v: int)
    requires Fifo(ops, s) && Allowed(s.c, op) && (op.Enqueue? ==> op.v == |ops|)
    requires 0 <= v <= |ops| && (ops + [op])[v].Enqueue?
    ensures Accounted(Record(s, op), (ops + [op])[v].h, v)
  {
    var h := (ops + [op])[v].h;
    assert v < |ops| ==> Accounted(s, h, v);
    match op
    case Init(g) =>
      LineInit(s, g, h);
    case Enqueue(g, w) =>
      LineEnqueue(s, g, w, h);
    case Dequeue(g) =>
      LineDequeue(s, g, h);
    case Remove(g, k) =>
      var line, gone, at, after := LineRemove(s, g, k, h);
      if g == h && v in line && v != line[at] {
        WithoutMember(line, at, v);
      }
  }

  lemma WithoutMember(q: seq<int>, k: int, v: int)
    requires 0 <= k < |q| && v in q && v != q[k]
    ensures v in Without(q, k)
  {
    var i :| 0 <= i < |q| && q[i] == v;
    assert Without(q, k)[if i < k then i else i - 1] == v;
  }

  /** Over every run in which the value enqueued by an operation is its own number, so that
      values tell when they came: every value is accounted for once, and each head delivers
      its values oldest first, whatever is removed in between. */
  lemma {:induction false} RunsAreFifo(ops: seq<Op<int>>)
    requires Run(ops).Some? && forall i :: 0 <= i < |ops| && ops[i].Enqueue? ==> ops[i].v == i
    ensures Fifo(ops, Run(ops).value)
  {
    if ops != [] {
      var before, op := ops[..|ops| - 1], ops[|ops| - 1];
      RunsBefore(ops, before, op);
      RunsAreFifo(before);
      FifoStep(before, Run(before).value, op);
    }
  }

  /** A run, and the run without its last operation. */
  lemma RunsBefore(ops: seq<Op<int>>, before: seq<Op<int>>, op: Op<int>)
    requires ops != [] && before == ops[..|ops| - 1] && op == ops[|ops| - 1] && Run(ops).Some?
    ensures ops == before + [op] && forall i :: 0 <= i < |before| ==> before[i] == ops[i]
    ensures Run(before).Some? && Allowed(Run(before).value.c, op) && Run(ops).value == Record(Run(before).value, op)
  {
  }
}
