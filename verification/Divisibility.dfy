/** Divisibility by named quotients, powers of two, and the uniqueness of remainders. */
module Divisibility {

  function Pow2(k: nat): (p: nat)
    ensures p > 0
  {
    if k == 0 then 1 else 2 * Pow2(k - 1)
  }

  /** d divides x, with the quotient named so that no division is involved. */
  ghost predicate Divides(d: nat, x: int) {
    exists q: int :: Times(q, d) == x
  }

  ghost function Times(q: int, d: nat): int {
    q * d
  }

  lemma {:induction false} Pow2Add(a: nat, b: nat)
    ensures Pow2(a + b) == Pow2(a) * Pow2(b)
  {
    if a != 0 {
      Pow2Add(a - 1, b);
      assert Pow2(a + b) == 2 * Pow2(a - 1 + b);
    }
  }

  lemma Pow2Values()
    ensures Pow2(16) == 0x1_0000 && Pow2(32) == 0x1_0000_0000
  {
    assert Pow2(4) == 16;
    assert Pow2(8) == 0x100 by { Pow2Add(4, 4); }
    assert Pow2(16) == 0x1_0000 by { Pow2Add(8, 8); }
    Pow2Add(16, 16);
  }

  lemma MulAtLeast(k: int, d: nat)
    ensures k >= 1 ==> k * d >= d
    ensures k <= -1 ==> k * d + d <= 0
  {
  }

  lemma ModUnique(d: nat, x: int, k: int, r: int)
    requires d > 0 && x == k * d + r && 0 <= r < d
    ensures x % d == r && x / d == k
  {
    MulAtLeast(x / d - k, d);
    assert (x / d - k) * d == x / d * d - k * d;
  }

  lemma DividesMod(d: nat, x: int)
    requires d > 0
    ensures Divides(d, x) <==> x % d == 0
  {
    if x % d == 0 {
      assert Times(x / d, d) == x;
    }
    if Divides(d, x) {
      var q :| Times(q, d) == x;
      ModUnique(d, x, q, 0);
    }
  }

  lemma DividesSum(d: nat, x: int, y: int)
    requires Divides(d, x)
    ensures Divides(d, x + y) <==> Divides(d, y)
    ensures Divides(d, x - y) <==> Divides(d, y)
  {
    var k :| Times(k, d) == x;
    if Divides(d, y) {
      var q :| Times(q, d) == y;
      assert Times(k + q, d) == x + y;
      assert Times(k - q, d) == x - y;
    }
    if Divides(d, x + y) {
      var q :| Times(q, d) == x + y;
      assert Times(q - k, d) == y;
    }
    if Divides(d, x - y) {
      var q :| Times(q, d) == x - y;
      assert Times(k - q, d) == y;
    }
  }

  lemma DividesDouble(d: nat, x: int)
    ensures Divides(2 * d, 2 * x) <==> Divides(d, x)
  {
    if Divides(d, x) {
      var q :| Times(q, d) == x;
      assert Times(q, 2 * d) == 2 * x;
    }
    if Divides(2 * d, 2 * x) {
      var q :| Times(q, 2 * d) == 2 * x;
      assert Times(q, d) == x;
    }
  }

  lemma DividesMultiple(d: nat, x: int, y: int)
    requires Divides(d, x)
    ensures Divides(d, x * y)
  {
    var q :| Times(q, d) == x;
    assert (q * d) * y == (q * y) * d;
    assert Times(q * y, d) == x * y;
  }

  lemma DividesTrans(d: nat, k: nat, x: int)
    requires Divides(k * d, x)
    ensures Divides(d, x)
  {
    var q :| Times(q, k * d) == x;
    assert q * (k * d) == (q * k) * d;
    assert Times(q * k, d) == x;
  }

  lemma OneDivides(x: int)
    ensures Divides(Pow2(0), x)
  {
    assert Times(x, 1) == x;
  }

  lemma OddNotMultiple(p: nat, x: int)
    requires x % 2 == 1
    ensures !Divides(2 * p, x)
  {
    forall q: int
      ensures Times(q, 2 * p) != x
    {
      assert q * (2 * p) == 2 * (q * p);
    }
  }

  lemma Distribute(x: int, h: int)
    ensures x * (2 * h + 1) == 2 * (x * h) + x
  {
  }

  lemma Associate(y: int, z: int)
    ensures (2 * y) * z == 2 * (y * z)
  {
  }

  lemma OddTimesOdd(p: nat, x: int, odd: int)
    requires x % 2 == 1 && odd % 2 == 1
    ensures !Divides(2 * p, x) && !Divides(2 * p, x * odd)
  {
    OddProduct(x, odd / 2, odd, x * odd);
    OddNotMultiple(p, x);
    OddNotMultiple(p, x * odd);
  }

  lemma OddProduct(x: int, h: int, odd: int, y: int)
    requires x % 2 == 1 && odd == 2 * h + 1 && y == x * odd
    ensures y % 2 == 1
  {
    var m := x * h;
    Distribute(x, h);
    assert y == 2 * m + x;
  }

  lemma EvenTimesOdd(p: nat, x: int, y: int, odd: int)
    requires x == 2 * y && (Divides(p, y * odd) <==> Divides(p, y))
    ensures Divides(2 * p, x * odd) <==> Divides(2 * p, x)
  {
    Associate(y, odd);
    DividesDouble(p, y);
    DividesDouble(p, y * odd);
  }

  /** An odd factor does not change which powers of two divide a number. */
  lemma {:induction false} OddFactor(k: nat, x: int, odd: int)
    requires odd % 2 == 1
    ensures Divides(Pow2(k), x * odd) <==> Divides(Pow2(k), x)
  {
    if k > 0 {
      if x % 2 == 1 {
        OddTimesOdd(Pow2(k - 1), x, odd);
      } else {
        OddFactor(k - 1, x / 2, odd);
        EvenTimesOdd(Pow2(k - 1), x, x / 2, odd);
      }
    } else {
      OneDivides(x);
      OneDivides(x * odd);
    }
  }

  /** Scales a number that is not a multiple of 2^(k+1) to one that has exactly k twos. */
  lemma {:induction false} ScaleToExactly(k: nat, p: nat) returns (m: nat)
    requires !Divides(Pow2(k + 1), p)
    ensures Divides(Pow2(k), m * p) && !Divides(Pow2(k + 1), m * p)
  {
    if Divides(Pow2(k), p) {
      m := 1;
    } else {
      OneDivides(p);
      m := ScaleToExactly(k - 1, p);
      DividesDouble(Pow2(k - 1), m * p);
      DividesDouble(Pow2(k), m * p);
      Associate(m, p);
      m := 2 * m;
    }
  }

  // Quotient and remainder by counting, for proofs in which the divisor is a variable.

  function Quotient(v: nat, b: nat): (q: nat)
    requires b > 0
    ensures v >= b >= 2 ==> q < v
    ensures v < b ==> q == 0
  {
    if v < b then 0 else Quotient(v - b, b) + 1
  }

  function Remainder(v: nat, b: nat): (r: nat)
    requires b > 0
    ensures r < b
  {
    if v < b then v else Remainder(v - b, b)
  }

  lemma {:induction false} QuotientRemainder(v: nat, b: nat)
    requires b > 0
    ensures v == Quotient(v, b) * b + Remainder(v, b)
  {
    if v >= b {
      QuotientRemainder(v - b, b);
      assert (Quotient(v - b, b) + 1) * b == Quotient(v - b, b) * b + b;
    }
  }

  lemma QuotientIsDiv(v: nat, b: nat)
    requires b > 0
    ensures Quotient(v, b) == v / b && Remainder(v, b) == v % b
  {
    QuotientRemainder(v, b);
    ModUnique(b, v, Quotient(v, b), Remainder(v, b));
  }
}
