/** Linear congruential sequences x -> a*x + 1 modulo a power of two, for a multiplier
    that is 1 modulo 4. */
module Congruential {
  import opened Counting
  import opened Divisibility

  function Step(a: nat, m: nat, x: nat): (y: nat)
    requires m > 0
    ensures y < m
  {
    (x * a + 1) % m
  }

  /** The state after n steps from x. */
  function Run(a: nat, m: nat, n: nat, x: nat): nat
    requires m > 0
  {
    if n == 0 then x else Step(a, m, Run(a, m, n - 1, x))
  }

  lemma {:induction false} RunAdd(a: nat, m: nat, i: nat, j: nat, x: nat)
    requires m > 0
    ensures Run(a, m, i + j, x) == Run(a, m, i, Run(a, m, j, x))
  {
    if i > 0 {
      RunAdd(a, m, i - 1, j, x);
      assert Run(a, m, i + j, x) == Step(a, m, Run(a, m, i - 1 + j, x));
    }
  }

  /** 1 + a + ... + a^(n-1), without reduction. */
  ghost function Geometric(a: nat, n: nat): nat {
    if n == 0 then 0 else a * Geometric(a, n - 1) + 1
  }

  lemma {:induction false} GeometricAdd(a: nat, m: nat, n: nat)
    ensures Geometric(a, m + n) == Geometric(a, n) + Geometric(a, m) * ((a - 1) * Geometric(a, n) + 1)
  {
    if m > 0 {
      GeometricAdd(a, m - 1, n);
      GeometricAddStep(a, Geometric(a, n), Geometric(a, m - 1));
      assert m - 1 + n == m + n - 1;
    }
  }

  lemma GeometricAddStep(a: nat, g: nat, h: nat)
    ensures a * (g + h * ((a - 1) * g + 1)) + 1 == g + (a * h + 1) * ((a - 1) * g + 1)
  {
  }

  lemma OddMultiplier(a: nat, g: nat)
    requires a % 2 == 1
    ensures (a * g + 1) % 2 == (g + 1) % 2
    ensures ((a - 1) * g + 1) % 2 == 1
  {
    var h := a / 2;
    Distribute(g, h);
    Associate(h, g);
    assert a * g + 1 == 2 * (g * h) + (g + 1);
    assert (a - 1) * g + 1 == 2 * (h * g) + 1;
  }

  lemma TimesHalf(a: int, g: int, h: int, odd: bool)
    requires g == 2 * h + if odd then 1 else 0
    ensures a * g == 2 * (a * h) + if odd then a else 0
  {
  }

  lemma ParityNext(a: nat, g: nat, h: int, odd: bool) returns (k: int)
    requires a % 4 == 1 && g == 2 * h + if odd then 1 else 0
    ensures a * g + 1 == 2 * k + if odd then 0 else 1
  {
    TimesHalf(a, g, h, odd);
    var ah := a * h;
    k := if odd then ah + a / 2 + 1 else ah;
  }

  /** The geometric sum has the parity of its length. */
  lemma {:induction false} GeometricParity(a: nat, n: nat) returns (h: int)
    requires a % 4 == 1
    ensures Geometric(a, n) == 2 * h + n % 2
  {
    if n == 0 {
      h := 0;
    } else {
      h := GeometricParity(a, n - 1);
      h := ParityNext(a, Geometric(a, n - 1), h, (n - 1) % 2 == 1);
    }
  }

  lemma DoubledLength(a: nat, m: nat) returns (half: int)
    requires a % 4 == 1
    ensures Geometric(a, 2 * m) == 2 * (Geometric(a, m) * half) && half % 2 == 1
  {
    GeometricAdd(a, m, m);
    assert m + m == 2 * m;
    half := DoubledSum(a, Geometric(a, m), Geometric(a, 2 * m));
  }

  lemma DoubledSum(a: nat, g: nat, sum: int) returns (half: int)
    requires a % 4 == 1 && sum == g + g * ((a - 1) * g + 1)
    ensures sum == 2 * (g * half) && half % 2 == 1
  {
    var q := a / 4;
    var u := q * g;
    half := 2 * u + 1;
    DoubledLengthCore(a, q, g, half);
  }

  lemma DoubledLengthCore(a: nat, q: nat, g: nat, half: int)
    requires a == 4 * q + 1 && half == 2 * (q * g) + 1
    ensures g + g * ((a - 1) * g + 1) == 2 * (g * half)
  {
    var u := q * g;
    assert (a - 1) * g == 4 * u;
    assert g * (4 * u + 1) + g == 2 * (g * (2 * u + 1));
  }

  /** The geometric sum has exactly as many factors of two as its length. */
  lemma {:induction false} GeometricTwos(a: nat, k: nat, n: nat)
    requires a % 4 == 1
    ensures Divides(Pow2(k), Geometric(a, n)) <==> Divides(Pow2(k), n)
  {
    if k == 0 {
      OneDivides(n);
      OneDivides(Geometric(a, n));
    } else {
      var p := Pow2(k - 1);
      var h := GeometricParity(a, n);
      if n % 2 == 1 {
        OddNotMultiple(p, n);
        OddNotMultiple(p, Geometric(a, n));
      } else {
        var m := n / 2;
        var half := DoubledLength(a, m);
        GeometricTwos(a, k - 1, m);
        OddFactor(k - 1, Geometric(a, m), half);
        DividesDouble(p, Geometric(a, m) * half);
        DividesDouble(p, m);
      }
    }
  }

  /** After n steps the state has moved by Geometric(n) times an odd number. */
  lemma {:induction false} Displacement(a: nat, m: nat, n: nat, x: nat)
    requires m > 0
    ensures Divides(m, Run(a, m, n, x) - x - Geometric(a, n) * ((a - 1) * x + 1))
  {
    if n == 0 {
      assert Times(0, m) == 0;
    } else {
      Displacement(a, m, n - 1, x);
      DisplacementStep(a, m, x, Geometric(a, n - 1), Run(a, m, n - 1, x));
    }
  }

  lemma DisplacementStep(a: nat, m: nat, x: nat, g: nat, y: nat)
    requires m > 0 && Divides(m, y - x - g * ((a - 1) * x + 1))
    ensures Divides(m, Step(a, m, y) - x - (a * g + 1) * ((a - 1) * x + 1))
  {
    var d := (a - 1) * x + 1;
    var e := y - x - g * d;
    var q := StepQuotient(a, m, y);
    DisplacementCore(a, x, g, y, d, e);
    DividesMultiple(m, e, a);
    DividesSum(m, e * a, Times(q, m));
  }

  lemma StepQuotient(a: nat, m: nat, y: nat) returns (q: int)
    requires m > 0
    ensures Step(a, m, y) == y * a + 1 - Times(q, m)
  {
    q := (y * a + 1) / m;
  }

  lemma DisplacementCore(a: nat, x: nat, g: nat, y: nat, d: int, e: int)
    requires d == (a - 1) * x + 1 && e == y - x - g * d
    ensures y * a + 1 - x - (a * g + 1) * d == e * a
  {
    var u := g * d;
    assert (a * g + 1) * d == a * u + d;
    assert (a - 1) * x == a * x - x;
    assert (y - x - u) * a == y * a - x * a - u * a;
  }

  /** Which powers of two up to the modulus divide the distance covered in n steps. */
  lemma DistanceTwos(a: nat, w: nat, k: nat, n: nat, x: nat)
    requires a % 4 == 1 && k <= w
    ensures Divides(Pow2(k), Run(a, Pow2(w), n, x) - x) <==> Divides(Pow2(k), n)
  {
    Displacement(a, Pow2(w), n, x);
    DistanceCore(a, w, k, n, x, Run(a, Pow2(w), n, x));
  }

  lemma DistanceCore(a: nat, w: nat, k: nat, n: nat, x: nat, z: nat)
    requires a % 4 == 1 && k <= w
    requires Divides(Pow2(w), z - x - Geometric(a, n) * ((a - 1) * x + 1))
    ensures Divides(Pow2(k), z - x) <==> Divides(Pow2(k), n)
  {
    var d := (a - 1) * x + 1;
    OddMultiplier(a, x);
    DistanceOdd(w, k, Geometric(a, n), d, z - x);
    GeometricTwos(a, k, n);
  }

  lemma DistanceOdd(w: nat, k: nat, g: nat, d: int, t: int)
    requires k <= w && d % 2 == 1 && Divides(Pow2(w), t - g * d)
    ensures Divides(Pow2(k), t) <==> Divides(Pow2(k), g)
  {
    var u := g * d;
    IgnoreMultiple(w, k, t - u, u);
    OddFactor(k, g, d);
  }

  lemma IgnoreMultiple(w: nat, k: nat, e: int, t: int)
    requires k <= w && Divides(Pow2(w), e)
    ensures Divides(Pow2(k), e + t) <==> Divides(Pow2(k), t)
  {
    Pow2Add(w - k, k);
    DividesTrans(Pow2(k), Pow2(w - k), e);
    DividesSum(Pow2(k), e, t);
  }

  /** Full period: two points of an orbit coincide exactly when their distance is a
      multiple of the modulus. */
  lemma FullPeriod(a: nat, w: nat, i: nat, j: nat, x: nat)
    requires a % 4 == 1 && x < Pow2(w) && i <= j
    ensures Run(a, Pow2(w), i, x) == Run(a, Pow2(w), j, x) <==> Divides(Pow2(w), j - i)
  {
    RunAdd(a, Pow2(w), j - i, i, x);
    assert j - i + i == j;
    DistanceTwos(a, w, w, j - i, Run(a, Pow2(w), i, x));
    SmallMultiple(Pow2(w), Run(a, Pow2(w), j, x) - Run(a, Pow2(w), i, x));
  }

  lemma SmallMultiple(m: nat, x: int)
    requires x + m > 0 && x < m
    ensures Divides(m, x) <==> x == 0
  {
    assert Times(0, m) == 0;
    if Divides(m, x) {
      var q :| Times(q, m) == x;
      MulAtLeast(q, m);
    }
  }

  // ----- every state is visited -----

  ghost function Orbit(a: nat, m: nat, n: nat, x: nat): set<int>
    requires m > 0
  {
    set k: nat | k < n :: Run(a, m, k, x)
  }

  lemma NotRevisited(a: nat, w: nat, n: nat, x: nat)
    requires a % 4 == 1 && x < Pow2(w) && n < Pow2(w)
    ensures Run(a, Pow2(w), n, x) !in Orbit(a, Pow2(w), n, x)
  {
    forall k: nat | k < n
      ensures Run(a, Pow2(w), k, x) != Run(a, Pow2(w), n, x)
    {
      FullPeriod(a, w, k, n, x);
      SmallMultiple(Pow2(w), n - k);
    }
  }

  lemma OrbitGrows(a: nat, m: nat, n: nat, x: nat)
    requires m > 0 && x < m
    ensures Orbit(a, m, n + 1, x) == Orbit(a, m, n, x) + {Run(a, m, n, x)}
    ensures Run(a, m, n, x) < m
  {
  }

  lemma OneMore(s: set<int>, y: int, m: nat)
    requires s <= Below(m) && 0 <= y < m && y !in s
    ensures |s + {y}| == |s| + 1 && s + {y} <= Below(m)
  {
  }

  lemma {:induction false} OrbitSize(a: nat, w: nat, n: nat, x: nat)
    requires a % 4 == 1 && x < Pow2(w) && n <= Pow2(w)
    ensures |Orbit(a, Pow2(w), n, x)| == n && Orbit(a, Pow2(w), n, x) <= Below(Pow2(w))
  {
    if n == 0 {
      assert Orbit(a, Pow2(w), 0, x) == {};
    } else {
      OrbitSize(a, w, n - 1, x);
      OrbitGrows(a, Pow2(w), n - 1, x);
      NotRevisited(a, w, n - 1, x);
      OneMore(Orbit(a, Pow2(w), n - 1, x), Run(a, Pow2(w), n - 1, x), Pow2(w));
    }
  }

  /** From every state, each state comes up within as many steps as there are states. */
  lemma EveryStateVisited(a: nat, w: nat, x: nat, y: nat)
    requires a % 4 == 1 && x < Pow2(w) && y < Pow2(w)
    ensures exists n: nat :: n < Pow2(w) && Run(a, Pow2(w), n, x) == y
  {
    var m := Pow2(w);
    OrbitSize(a, w, m, x);
    SubsetOfSameSize(Orbit(a, m, m, x), Below(m));
    assert y in Orbit(a, m, m, x);
  }
}

/** The pseudo-random generator of the C library: a 64-bit linear congruential
    state of which each call delivers 31 bits. */
module Rand {
  import opened Divisibility
  import opened Congruential

  const MODULUS: nat := 0x1_0000_0000_0000_0000
  const MULTIPLIER: nat := 6364136223846793005
  const RAND_MAX: nat := 0x7fff_ffff

  /** The bits of the state handed to the caller. */
  function Output(x: nat): nat {
    x / 0x1_0000_0000 % (RAND_MAX + 1)
  }

  /** Delivered are bits 32 to 62 of the state: one bit is above them and 32 are below. */
  lemma OutputBits(x: nat) returns (top: nat, low: nat)
    requires x < 0x1_0000_0000_0000_0000
    ensures x == top * 0x8000_0000_0000_0000 + Output(x) * 0x1_0000_0000 + low
    ensures top <= 1 && Output(x) < 0x8000_0000 && low < 0x1_0000_0000
  {
    top, low := x / 0x8000_0000_0000_0000, x % 0x1_0000_0000;
  }

  /** The state after n calls from state x. */
  function State(n: nat, x: nat): nat {
    Run(MULTIPLIER, MODULUS, n, x)
  }

  class Generator {
    var next: nat

    constructor ()
      ensures next == 1
    {
      next := 1;
    }

    method SRand(seed: nat)
      requires seed < 0x1_0000_0000
      modifies this
      ensures next == State(0, seed)
    {
      next := seed;
    }

    method Rand() returns (r: nat)
      modifies this
      ensures next == State(1, old(next)) < MODULUS
      ensures r == Output(next) <= RAND_MAX
    {
      next := (next * MULTIPLIER + 1) % MODULUS;
      r := next / 0x1_0000_0000 % 0x8000_0000;
      assert State(0, old(next)) == old(next);
    }

    /** The k-th number drawn after seeding is the output of the k-th state. */
    method Draw(seed: nat, n: nat) returns (drawn: seq<nat>)
      requires seed < 0x1_0000_0000
      modifies this
      ensures |drawn| == n && next == State(n, seed)
      ensures forall k :: 0 <= k < n ==> drawn[k] == Output(State(k + 1, seed))
    {
      SRand(seed);
      drawn := [];
      while |drawn| < n
        invariant |drawn| <= n && next == State(|drawn|, seed)
        invariant forall k :: 0 <= k < |drawn| ==> drawn[k] == Output(State(k + 1, seed))
      {
        assert State(0, next) == next;
        assert State(1, next) == Step(MULTIPLIER, MODULUS, next);
        var r := Rand();
        drawn := drawn + [r];
      }
    }
  }

  lemma ModulusIsPow2()
    ensures MODULUS == Pow2(64) == 2 * Pow2(63) && Pow2(63) == 2 * Pow2(62)
  {
    Pow2Values();
    Pow2Add(32, 32);
  }

  /** The state has period exactly 2^64 from every seed. */
  lemma StatePeriod(i: nat, j: nat, x: nat)
    requires x < MODULUS && i <= j
    ensures State(i, x) == State(j, x) <==> (j - i) % MODULUS == 0
  {
    ModulusIsPow2();
    FullPeriod(MULTIPLIER, 64, i, j, x);
    DividesMod(MODULUS, j - i);
  }

  lemma StateVisited(x: nat, y: nat)
    requires x < MODULUS && y < MODULUS
    ensures exists n: nat :: n < MODULUS && State(n, x) == y
  {
    ModulusIsPow2();
    EveryStateVisited(MULTIPLIER, 64, x, y);
    var n: nat :| n < Pow2(64) && Run(MULTIPLIER, Pow2(64), n, x) == y;
    assert State(n, x) == y;
  }

  // ----- the period a caller can see -----

  /** p is a period of the numbers delivered from state x. */
  ghost predicate OutputPeriod(p: nat, x: nat) {
    forall n: nat :: n > 0 ==> Output(State(n + p, x)) == Output(State(n, x))
  }

  lemma OutputModHalf(x: nat, y: nat)
    requires Divides(MODULUS / 2, y - x)
    ensures Output(x) == Output(y)
  {
    var q :| Times(q, MODULUS / 2) == y - x;
    assert y == x + q * 0x8000_0000_0000_0000;
    assert y / 0x1_0000_0000 == x / 0x1_0000_0000 + q * 0x8000_0000;
  }

  lemma OutputFlips(x: nat, y: nat)
    requires Divides(MODULUS / 4, y - x) && !Divides(MODULUS / 2, y - x)
    ensures Output(x) != Output(y)
  {
    var q :| Times(q, MODULUS / 4) == y - x;
    var h := q / 2;
    assert y == x + q * 0x4000_0000_0000_0000;
    assert Times(h, MODULUS / 2) == h * 0x8000_0000_0000_0000 != y - x;
    assert q == 2 * h + 1;
    var u := x / 0x1_0000_0000;
    assert y / 0x1_0000_0000 == u + h * 0x8000_0000 + 0x4000_0000;
  }

  lemma {:induction false} PeriodMultiple(p: nat, k: nat, x: nat)
    requires OutputPeriod(p, x)
    ensures Output(State(1 + k * p, x)) == Output(State(1, x))
  {
    if k > 0 {
      PeriodMultiple(p, k - 1, x);
      var n: nat := 1 + (k - 1) * p;
      assert n + p == 1 + k * p;
      assert Output(State(n + p, x)) == Output(State(n, x));
    }
  }

  lemma MultipleIsPeriod(p: nat, x: nat)
    requires Divides(MODULUS / 2, p)
    ensures OutputPeriod(p, x)
  {
    ModulusIsPow2();
    forall n: nat | n > 0
      ensures Output(State(n + p, x)) == Output(State(n, x))
    {
      RunAdd(MULTIPLIER, MODULUS, p, n, x);
      DistanceTwos(MULTIPLIER, 64, 63, p, State(n, x));
      OutputModHalf(State(n, x), State(p, State(n, x)));
    }
  }

  lemma PeriodIsMultiple(p: nat, x: nat)
    requires OutputPeriod(p, x)
    ensures Divides(MODULUS / 2, p)
  {
    ModulusIsPow2();
    if !Divides(Pow2(63), p) {
      var m := ScaleToExactly(62, p);
      PeriodMultiple(p, m, x);
      MovesTopBit(m * p, 1, x);
      assert false;
    }
  }

  lemma MovesTopBit(p: nat, n: nat, x: nat)
    requires Divides(Pow2(62), p) && !Divides(Pow2(63), p)
    ensures Output(State(n + p, x)) != Output(State(n, x))
  {
    ModulusIsPow2();
    var y := State(n, x);
    RunAdd(MULTIPLIER, MODULUS, p, n, x);
    DistanceTwos(MULTIPLIER, 64, 62, p, y);
    DistanceTwos(MULTIPLIER, 64, 63, p, y);
    OutputFlips(y, State(p, y));
  }

  /** The delivered numbers repeat with period exactly 2^63: the mask drops the top bit of
      the state, so the visible period is half that of the state. */
  lemma VisiblePeriod(p: nat, x: nat)
    ensures OutputPeriod(p, x) <==> p % (MODULUS / 2) == 0
  {
    DividesMod(MODULUS / 2, p);
    if Divides(MODULUS / 2, p) {
      MultipleIsPeriod(p, x);
    }
    if OutputPeriod(p, x) {
      PeriodIsMultiple(p, x);
    }
  }
}
