/** strtol and strtoul: the number at the start of a C string, in 32-bit arithmetic. */
module StrToNum {
  import opened Divisibility
  import opened Options
  import opened Strings

  const WORD := 0x1_0000_0000
  const ULONG_MAX := 0xffff_ffff
  const LONG_MAX := 0x7fff_ffff
  const LONG_MIN := -0x8000_0000

  // ----- digits and their value -----

  /** The value of a digit or letter, and -1 for other characters. */
  function DigitValue(c: char): int {
    if '0' <= c <= '9' then c as int - '0' as int
    else if 'A' <= c <= 'Z' then c as int - 'A' as int + 10
    else if 'a' <= c <= 'z' then c as int - 'a' as int + 10
    else -1
  }

  predicate IsDigit(c: char, base: int) {
    0 <= DigitValue(c) < base
  }

  /** The number that a run of digits stands for. */
  function Value(w: string, base: int): int {
    if w == "" then 0 else Value(w[..|w| - 1], base) * base + DigitValue(w[|w| - 1])
  }

  function DigitsEnd(s: string, p: nat, base: int): (q: nat)
    requires p <= |s|
    ensures p <= q <= |s|
    decreases |s| - p
  {
    if p < |s| && IsDigit(s[p], base) then DigitsEnd(s, p + 1, base) else p
  }

  // ----- the parts of a number -----

  predicate IsBlank(c: char) {
    c == ' ' || c == '\t' || c == '\n'
  }

  function SkipBlanks(s: string, p: nat): (q: nat)
    requires p <= |s|
    ensures p <= q <= |s|
    decreases |s| - p
  {
    if p < |s| && IsBlank(s[p]) then SkipBlanks(s, p + 1) else p
  }

  /** Sign, base and digits: the run s[start..end]. */
  datatype Numeral = Numeral(neg: bool, base: int, start: nat, end: nat)

  predicate HexPrefix(s: string, p: nat, base: int) {
    (base == 0 || base == 16) && CharAt(s, p) == '0' && (CharAt(s, p + 1) == 'x' || CharAt(s, p + 1) == 'X')
  }

  function Scan(s: string, base: int): (n: Numeral)
    ensures n.start <= n.end <= |s|
    ensures n.base == 0 ==> base == 0
  {
    var p := SkipBlanks(s, 0);
    var q := if CharAt(s, p) == '-' || CharAt(s, p) == '+' then p + 1 else p;
    var (b, start) :=
      if HexPrefix(s, q, base) then (16, q + 2)
      else if base == 0 then (if CharAt(s, q) == '0' then 8 else 10, q)
      else (base, q);
    Numeral(CharAt(s, p) == '-', b, start, DigitsEnd(s, start, b))
  }

  function Magnitude(s: string, base: int): int {
    var n := Scan(s, base);
    Value(s[n.start..n.end], n.base)
  }

  function Clamp(v: int): int {
    if v < LONG_MIN then LONG_MIN else if v > LONG_MAX then LONG_MAX else v
  }

  function SignedValue(s: string, base: int): int {
    Clamp(if Scan(s, base).neg then -Magnitude(s, base) else Magnitude(s, base))
  }

  /** A minus sign negates in 32-bit arithmetic; what does not fit is ULONG_MAX. */
  function UnsignedValue(s: string, base: int): int {
    var m := Magnitude(s, base);
    if m > ULONG_MAX then ULONG_MAX else if Scan(s, base).neg then (WORD - m) % WORD else m
  }

  /** What does not fit a long becomes the nearer end of its range, the sign telling which; what
      does not fit an unsigned long becomes the greatest, and a minus sign negates modulo 2^32. */
  lemma Saturation(s: string, base: int)
    ensures var neg, m, v, u := Scan(s, base).neg, Magnitude(s, base), SignedValue(s, base), UnsignedValue(s, base);
            && (!neg ==> if 0x7fff_ffff < m then v == 0x7fff_ffff else m < 0 || v == m)
            && (neg ==> if 0x8000_0000 < m then v == -0x8000_0000 else m < 0 || v == -m)
            && (0xffff_ffff < m ==> u == 0xffff_ffff)
            && (0 <= m <= 0xffff_ffff ==>
                  0 <= u <= 0xffff_ffff && if neg && m > 0 then u + m == 0x1_0000_0000 else u == m)
  {
  }

  /** Where parsing stopped; at the very start if there were no digits. */
  function Stopped(s: string, base: int): nat {
    var n := Scan(s, base);
    if n.start < n.end then n.end else 0
  }

  // ----- the overflow test -----

  /** The test with quotient and remainder of the limit is exact. */
  lemma CutoffExact(acc: nat, c: nat, base: nat, limit: nat)
    requires base > 0 && c < base
    ensures acc * base + c > limit <==> acc > limit / base || (acc == limit / base && c > limit % base)
  {
    var q, r := limit / base, limit % base;
    MulAtLeast(acc - q, base);
    assert (acc - q) * base == acc * base - q * base;
    assert limit == q * base + r;
  }

  lemma {:induction false} DigitsEndMeaning(s: string, p: nat, base: int)
    requires p <= |s|
    ensures var q := DigitsEnd(s, p, base);
            (forall i :: p <= i < q ==> IsDigit(s[i], base)) && (q < |s| ==> !IsDigit(s[q], base))
    decreases |s| - p
  {
    if p < |s| && IsDigit(s[p], base) {
      DigitsEndMeaning(s, p + 1, base);
    }
  }

  lemma {:induction false} DigitsEndAt(s: string, p: nat, q: nat, base: int)
    requires p <= q <= |s| && (forall i :: p <= i < q ==> IsDigit(s[i], base)) && (q < |s| ==> !IsDigit(s[q], base))
    ensures DigitsEnd(s, p, base) == q
    decreases q - p
  {
    if p < q {
      DigitsEndAt(s, p + 1, q, base);
    }
  }

  /** One more digit of a run. */
  lemma ValueStep(s: string, p: nat, q: nat, base: int)
    requires p <= q < |s|
    ensures Value(s[p..q + 1], base) == Value(s[p..q], base) * base + DigitValue(s[q])
  {
    assert s[p..q + 1][..q - p] == s[p..q];
  }

  /** The value of the digits read so far, or the news that it exceeds the limit for good. */
  predicate Accumulated(v: int, limit: int, acc: int, any: int, read: bool) {
    if any < 0 then read && v > limit else 0 <= acc <= limit && acc == v && (any == 1 <==> read) && (any == 0 || any == 1)
  }

  /** One round of the digit loop. */
  lemma AccumulateStep(v: int, limit: nat, acc: int, any: int, read: bool, base: int, c: int)
    requires Accumulated(v, limit, acc, any, read) && 0 <= c < base && v >= 0
    ensures var over := any < 0 || acc > limit / base || (acc == limit / base && c > limit % base);
            Accumulated(v * base + c, limit, if over then acc else acc * base + c, if over then -1 else 1, true)
    ensures v * base + c >= 0
  {
    if any < 0 {
      MulAtLeast(base - 1, v);
      assert v * base == (base - 1) * v + v;
      assert base == 1 ==> v * base == v;
    } else {
      CutoffExact(acc, c, base, limit);
    }
  }

  // ----- where a number ends -----

  function SignEnd(s: string, p: nat): nat {
    if CharAt(s, p) == '-' || CharAt(s, p) == '+' then p + 1 else p
  }

  function PlainBase(s: string, q: nat, base: int): int {
    if base != 0 then base else if CharAt(s, q) == '0' then 8 else 10
  }

  ghost predicate Run(s: string, p: nat, e: int, base: int) {
    p < e <= |s| && forall i :: p <= i < e ==> IsDigit(s[i], base)
  }

  /** s[p..e] has the form of a number by section 7.22.1.4 of ISO C11: a sign, then digits of
      the base, or 0x and hexadecimal digits where the base allows it. */
  ghost predicate Subject(s: string, p: nat, e: int, base: int) {
    var q := SignEnd(s, p);
    Run(s, q, e, PlainBase(s, q, base)) || (HexPrefix(s, q, base) && Run(s, q + 2, e, 16))
  }

  ghost predicate Longest(s: string, p: nat, e: int, base: int) {
    Subject(s, p, e, base) && forall f :: Subject(s, p, f, base) ==> f <= e
  }

  /** 0x without a hexadecimal digit behind it. */
  predicate BarePrefix(s: string, base: int) {
    var q := SignEnd(s, SkipBlanks(s, 0));
    HexPrefix(s, q, base) && !IsDigit(CharAt(s, q + 2), 16)
  }

  lemma RunEnds(s: string, p: nat, f: int, base: int)
    requires p <= |s|
    ensures Run(s, p, f, base) ==> f <= DigitsEnd(s, p, base)
    ensures p < DigitsEnd(s, p, base) ==> Run(s, p, DigitsEnd(s, p, base), base)
  {
    DigitsEndMeaning(s, p, base);
  }

  /** As digits, a 0 in front of an x is all there is. */
  lemma ZeroAlone(s: string, q: nat, f: int, base: int)
    requires HexPrefix(s, q, base)
    ensures Run(s, q, q + 1, PlainBase(s, q, base))
    ensures Run(s, q, f, PlainBase(s, q, base)) ==> f <= q + 1
  {
    assert Run(s, q, f, PlainBase(s, q, base)) && f > q + 1 ==> IsDigit(s[q + 1], PlainBase(s, q, base));
  }

  /** Behind blanks, tabs and newlines parsing stops where the longest number ends, except after
      0x without a digit: there the number is the 0, but the very start is reported. */
  lemma StopsBehindBlanks(s: string, base: int)
    requires base == 0 || 2 <= base <= 36
    ensures var p, e := SkipBlanks(s, 0), Stopped(s, base);
            if BarePrefix(s, base) then e == 0 && Longest(s, p, SignEnd(s, p) + 1, base)
            else if exists f :: Subject(s, p, f, base) then Longest(s, p, e, base)
            else e == 0
  {
    var p, n := SkipBlanks(s, 0), Scan(s, base);
    var q := SignEnd(s, p);
    forall f | Subject(s, p, f, base)
      ensures f <= if BarePrefix(s, base) then q + 1 else n.end
      ensures BarePrefix(s, base) || n.start < n.end
    {
      RunEnds(s, n.start, f, n.base);
      if HexPrefix(s, q, base) {
        ZeroAlone(s, q, f, base);
      }
    }
    RunEnds(s, n.start, 0, n.base);
    if HexPrefix(s, q, base) {
      ZeroAlone(s, q, 0, base);
      assert Subject(s, p, q + 1, base);
    }
    assert n.start < n.end ==> Subject(s, p, n.end, base);
  }

  /** Base 0 takes the base from the text: 16 behind 0x, 8 behind 0, and else 10. */
  lemma BaseFromText(s: string)
    ensures var q := SignEnd(s, SkipBlanks(s, 0));
            var hex := CharAt(s, q + 1) == 'x' || CharAt(s, q + 1) == 'X';
            var b := if CharAt(s, q) != '0' then 10 else if hex then 16 else 8;
            && SignedValue(s, 0) == SignedValue(s, b) && UnsignedValue(s, 0) == UnsignedValue(s, b)
            && Stopped(s, 0) == Stopped(s, b)
  {
    var q := SignEnd(s, SkipBlanks(s, 0));
    if CharAt(s, q) != '0' {
      assert Scan(s, 0) == Scan(s, 10);
    } else if CharAt(s, q + 1) == 'x' || CharAt(s, q + 1) == 'X' {
      assert Scan(s, 0) == Scan(s, 16);
    } else {
      assert Scan(s, 0) == Scan(s, 8);
    }
  }

  // ----- the same by the standard -----

  /** White space in the C locale, section 7.4.1.10 of ISO C11. */
  predicate IsSpace(c: char) {
    IsBlank(c) || 11 as char <= c <= 13 as char
  }

  function SkipSpaces(s: string, p: nat): (q: nat)
    requires p <= |s|
    ensures p <= q <= |s|
    decreases |s| - p
  {
    if p < |s| && IsSpace(s[p]) then SkipSpaces(s, p + 1) else p
  }

  /** endptr as section 7.22.1.4 of ISO C11 wants it: the end of the longest number behind all
      white space, or the very start if there is none. */
  ghost predicate StandardEnd(s: string, base: int, e: nat) {
    var p := SkipSpaces(s, 0);
    if exists f :: Subject(s, p, f, base) then Longest(s, p, e, base) else e == 0
  }

  /** A number behind white space of which the code skips only a part. */
  ghost predicate HiddenNumber(s: string, base: int) {
    IsSpace(CharAt(s, SkipBlanks(s, 0))) && exists f :: Subject(s, SkipSpaces(s, 0), f, base)
  }

  lemma {:induction false} SpacesBehindBlanks(s: string, p: nat)
    requires p <= |s|
    ensures SkipSpaces(s, p) == SkipSpaces(s, SkipBlanks(s, p))
    ensures !IsBlank(CharAt(s, SkipBlanks(s, p)))
    decreases |s| - p
  {
    if p < |s| && IsBlank(s[p]) {
      SpacesBehindBlanks(s, p + 1);
    }
  }

  /** White space is no part of a number. */
  lemma NoNumberAtSpace(s: string, p: nat, base: int)
    requires p < |s| && IsSpace(s[p])
    ensures forall f :: !Subject(s, p, f, base)
  {
    forall f
      ensures !Subject(s, p, f, base)
    {
      assert Run(s, p, f, PlainBase(s, p, base)) ==> IsDigit(s[p], PlainBase(s, p, base));
    }
  }

  /** endptr is what the standard wants, except exactly after 0x without a hexadecimal digit and
      for numbers behind white space other than blanks, tabs and newlines. */
  lemma StopsAtLongest(s: string, base: int)
    requires base == 0 || 2 <= base <= 36
    ensures StandardEnd(s, base, Stopped(s, base)) <==> !BarePrefix(s, base) && !HiddenNumber(s, base)
  {
    var p := SkipBlanks(s, 0);
    StopsBehindBlanks(s, base);
    SpacesBehindBlanks(s, 0);
    if IsSpace(CharAt(s, p)) {
      NoNumberAtSpace(s, p, base);
    }
  }

  /** Both exceptions occur: 0x alone, and a vertical tab before 12. */
  lemma StandardMissed()
    ensures BarePrefix("0x", 16) && Stopped("0x", 16) == 0 && !StandardEnd("0x", 16, 0)
    ensures var s := [11 as char, '1', '2'];
            HiddenNumber(s, 10) && Stopped(s, 10) == 0 && StandardEnd(s, 10, 3)
  {
    StopsAtLongest("0x", 16);
    var s := [11 as char, '1', '2'];
    assert SkipSpaces(s, 1) == 1 && SkipSpaces(s, 0) == 1;
    assert Subject(s, 1, 3, 10);
    StopsAtLongest(s, 10);
    assert forall f :: Subject(s, 1, f, 10) ==> f <= 3;
  }

  // ----- the functions -----

  /** A 32-bit word read as a long. */
  function ToSigned(u: int): int {
    if u > LONG_MAX then u - WORD else u
  }

  /** Blanks, sign and prefix: where the digits start and in which base they are read. */
  method Prefix(nptr: string, base: int) returns (neg: bool, b: int, i: nat)
    ensures i <= |nptr| && Scan(nptr, base) == Numeral(neg, b, i, DigitsEnd(nptr, i, b))
  {
    i := 0;
    while IsBlank(CharAt(nptr, i))
      invariant i <= |nptr| && SkipBlanks(nptr, i) == SkipBlanks(nptr, 0)
      decreases |nptr| - i
    {
      i := i + 1;
    }
    neg := false;
    if CharAt(nptr, i) == '-' {
      neg := true;
      i := i + 1;
    } else if CharAt(nptr, i) == '+' {
      i := i + 1;
    }
    b := base;
    if (base == 0 || base == 16) && CharAt(nptr, i) == '0' && (CharAt(nptr, i + 1) == 'x' || CharAt(nptr, i + 1) == 'X') {
      i := i + 2;
      b := 16;
    }
    if b == 0 {
      b := if CharAt(nptr, i) == '0' then 8 else 10;
    }
  }

  /** The digit loop: any is 0 without digits, 1 if the value fits the limit, and else -1. */
  method Accumulate(nptr: string, start: nat, base: int, limit: nat) returns (acc: int, any: int, i: nat)
    requires start <= |nptr| && base != 0
    ensures i == DigitsEnd(nptr, start, base)
    ensures Accumulated(Value(nptr[start..i], base), limit, acc, any, start < i)
  {
    var cutlim := limit % base;
    var cutoff := limit / base;
    acc, any, i := 0, 0, start;
    assert nptr[start..start] == "";
    while true
      invariant start <= i <= |nptr| && DigitsEnd(nptr, i, base) == DigitsEnd(nptr, start, base)
      invariant Value(nptr[start..i], base) >= 0
      invariant Accumulated(Value(nptr[start..i], base), limit, acc, any, start < i)
      decreases |nptr| - i
    {
      var c := DigitValue(CharAt(nptr, i));
      if c < 0 || c >= base {
        return;
      }
      ValueStep(nptr, start, i, base);
      AccumulateStep(Value(nptr[start..i], base), limit, acc, any, start < i, base, c);
      if any < 0 || acc > cutoff || (acc == cutoff && c > cutlim) {
        any := -1;
      } else {
        any := 1;
        acc := acc * base;
        acc := acc + c;
      }
      i := i + 1;
    }
  }

  method StrToL(nptr: string, base: int) returns (r: int, endptr: Option<nat>)
    ensures base < 0 || base == 1 || base > 36 ==> r == 0 && endptr == None
    ensures base == 0 || 2 <= base <= 36 ==> r == SignedValue(nptr, base) && endptr == Some(Stopped(nptr, base))
    ensures LONG_MIN <= r <= LONG_MAX
  {
    if base < 0 || base == 1 || base > 36 {
      return 0, None;
    }
    var neg, b, start := Prefix(nptr, base);
    var cutoff := if neg then (WORD - LONG_MIN) % WORD else LONG_MAX;
    var acc, any, i := Accumulate(nptr, start, b, cutoff);
    if any < 0 {
      r := if neg then LONG_MIN else LONG_MAX;
    } else if neg {
      r := ToSigned((WORD - acc) % WORD);
    } else {
      r := acc;
    }
    endptr := Some(if any != 0 then i else 0);
  }

  method StrToUL(nptr: string, base: int) returns (r: int, endptr: nat)
    ensures r == UnsignedValue(nptr, base) && endptr == Stopped(nptr, base)
    ensures 0 <= r <= ULONG_MAX
  {
    var neg, b, start := Prefix(nptr, base);
    var acc, any, i := Accumulate(nptr, start, b, ULONG_MAX);
    if any < 0 {
      r := ULONG_MAX;
    } else if neg {
      r := (WORD - acc) % WORD;
    } else {
      r := acc;
    }
    endptr := if any != 0 then i else 0;
  }
}
