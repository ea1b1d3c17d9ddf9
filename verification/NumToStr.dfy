/** utoa, itoa and the number formatting of printf: digits of 32-bit values in any base. */
module NumToStr {
  import opened Divisibility
  import opened Strings
  import opened StrToNum

  function DigitChar(d: int, upper: bool): char
    requires 0 <= d < 36
  {
    if d < 10 then ('0' as int + d) as char
    else if upper then ('A' as int + d - 10) as char
    else ('a' as int + d - 10) as char
  }

  const LOWER_DIGITS := "0123456789abcdefghijklmnopqrstuvwxyz"
  const UPPER_DIGITS := "0123456789ABCDEFGHIJKLMNOPQRSTUVWXYZ"

  lemma LowerTable(d: nat)
    requires d < 36
    ensures LOWER_DIGITS[d] as int == if d < 10 then '0' as int + d else 'a' as int + (d - 10)
  {
  }

  lemma UpperTable(d: nat)
    requires d < 36
    ensures UPPER_DIGITS[d] as int == if d < 10 then '0' as int + d else 'A' as int + (d - 10)
  {
  }

  /** The digits are those of the tables, and each is read as its place there. */
  lemma DigitTables(d: nat)
    requires d < 36
    ensures DigitChar(d, false) == LOWER_DIGITS[d] && DigitChar(d, true) == UPPER_DIGITS[d]
    ensures DigitValue(LOWER_DIGITS[d]) == d && DigitValue(UPPER_DIGITS[d]) == d
  {
    LowerTable(d);
    UpperTable(d);
  }

  /** The digits of v, the most significant first. */
  function Digits(v: nat, base: nat, upper: bool): (w: string)
    requires 2 <= base <= 36
    ensures w != ""
  {
    if v < base then [DigitChar(v, upper)]
    else Digits(Quotient(v, base), base, upper) + [DigitChar(Remainder(v, base), upper)]
  }

  /** The same digits as they are produced, the least significant first. */
  function LowDigits(v: nat, base: nat, upper: bool): (w: string)
    requires 2 <= base <= 36
    ensures w != ""
  {
    if v < base then [DigitChar(v, upper)]
    else [DigitChar(Remainder(v, base), upper)] + LowDigits(Quotient(v, base), base, upper)
  }

  lemma {:induction false} LowDigitsReversed(v: nat, base: nat, upper: bool)
    requires 2 <= base <= 36
    ensures var w, r := Digits(v, base, upper), LowDigits(v, base, upper);
            |w| == |r| && forall k :: 0 <= k < |w| ==> w[k] == r[|w| - 1 - k]
  {
    if v >= base {
      LowDigitsReversed(Quotient(v, base), base, upper);
    }
  }

  lemma QuotientSmall(v: nat, base: nat, p: nat)
    requires 2 <= base && v < 2 * p
    ensures Quotient(v, base) < p
  {
    var q := Quotient(v, base);
    QuotientRemainder(v, base);
    MulAtLeast(base - 1, q);
    assert q * base == (base - 1) * q + q;
  }

  lemma {:induction false} DigitsShort(v: nat, base: nat, upper: bool, k: nat)
    requires 2 <= base <= 36 && v < Pow2(k) && k >= 1
    ensures |LowDigits(v, base, upper)| <= k
  {
    if v >= base {
      assert Pow2(0) == 1;
      QuotientSmall(v, base, Pow2(k - 1));
      DigitsShort(Quotient(v, base), base, upper, k - 1);
    }
  }

  lemma ValueAppend(u: string, c: char, base: int)
    ensures Value(u + [c], base) == Value(u, base) * base + DigitValue(c)
  {
  }

  lemma DigitCharValue(d: int, upper: bool)
    requires 0 <= d < 36
    ensures DigitValue(DigitChar(d, upper)) == d
  {
  }

  /** Digits are digits of their base, and read as a number they give the value back. */
  lemma {:induction false} DigitsValue(v: nat, base: nat, upper: bool)
    requires 2 <= base <= 36
    ensures Value(Digits(v, base, upper), base) == v
    ensures forall i :: 0 <= i < |Digits(v, base, upper)| ==> IsDigit(Digits(v, base, upper)[i], base)
  {
    if v < base {
      DigitCharValue(v, upper);
      ValueAppend("", DigitChar(v, upper), base);
      assert "" + [DigitChar(v, upper)] == Digits(v, base, upper);
      assert Value("", base) == 0;
    } else {
      var q, r := Quotient(v, base), Remainder(v, base);
      DigitsValue(q, base, upper);
      DigitCharValue(r, upper);
      ValueAppend(Digits(q, base, upper), DigitChar(r, upper), base);
      QuotientRemainder(v, base);
    }
  }

  method UToA(value: int, str: array<char>, off: nat, base: int) returns (ok: bool)
    requires 0 <= value < WORD
    requires off + (if 2 <= base <= 36 then |Digits(value, base, false)| else 0) < str.Length
    modifies str
    ensures ok <==> 2 <= base <= 36
    ensures str[..off] == old(str[..off])
    ensures ok ==> var w := Digits(value, base, false); str[off..off + |w|] == w && str[off + |w|] == '\0'
    ensures !ok ==> str[off] == '\0'
  {
    if base < 2 || base > 36 {
      str[off] := '\0';
      return false;
    }
    LowDigitsReversed(value, base, false);
    ghost var low := LowDigits(value, base, false);
    var n := WriteLow(value, str, off, base);
    str[off + n] := '\0';
    assert forall k :: off <= k < off + n ==> str[k] == low[k - off];
    Reverse(str, off, off + n);
    Turned(str[off..off + n], value, base);
    ok := true;
  }

  lemma Turned(s: string, value: nat, base: nat)
    requires 2 <= base <= 36 && |s| == |LowDigits(value, base, false)|
    requires forall k :: 0 <= k < |s| ==> s[k] == LowDigits(value, base, false)[|s| - 1 - k]
    ensures s == Digits(value, base, false)
  {
    LowDigitsReversed(value, base, false);
  }

  /** The digit loop of utoa, which leaves the digits in reverse order. */
  method WriteLow(value: int, str: array<char>, off: nat, base: int) returns (n: nat)
    requires value >= 0 && 2 <= base <= 36 && off + |LowDigits(value, base, false)| <= str.Length
    modifies str
    ensures n == |LowDigits(value, base, false)|
    ensures forall k :: off <= k < off + n ==> str[k] == LowDigits(value, base, false)[k - off]
    ensures forall k :: 0 <= k < str.Length && !(off <= k < off + n) ==> str[k] == old(str[k])
  {
    ghost var low := LowDigits(value, base, false);
    var v := value;
    n := 0;
    while true
      invariant 0 <= n < |low| && v >= 0 && low[n..] == LowDigits(v, base, false)
      invariant forall k :: off <= k < off + n ==> str[k] == low[k - off]
      invariant forall k :: 0 <= k < str.Length && !(off <= k < off + n) ==> str[k] == old(str[k])
      decreases |low| - n
    {
      assert low[n] == low[n..][0];
      QuotientIsDiv(v, base);
      str[off + n] := DigitChar(v % base, false);
      if v < base {
        n := n + 1;
        return;
      }
      assert low[n + 1..] == low[n..][1..];
      n := n + 1;
      v := v / base;
    }
  }

  /** The swapping loop of utoa. */
  method Reverse(str: array<char>, lo: nat, hi: nat)
    requires lo <= hi <= str.Length
    modifies str
    ensures forall k :: lo <= k < hi ==> str[k] == old(str[lo + hi - 1 - k])
    ensures forall k :: 0 <= k < str.Length && !(lo <= k < hi) ==> str[k] == old(str[k])
  {
    var j, i := lo, hi - 1;
    while j < i
      invariant lo <= j <= hi && i == lo + hi - 1 - j && j <= i + 1
      invariant forall k :: lo <= k < hi && (k < j || k > i) ==> str[k] == old(str[lo + hi - 1 - k])
      invariant forall k :: 0 <= k < str.Length && (j <= k <= i || !(lo <= k < hi)) ==> str[k] == old(str[k])
    {
      var c := str[j];
      str[j] := str[i];
      str[i] := c;
      j, i := j + 1, i - 1;
    }
  }

  /** The 32-bit word of an int. */
  function Unsigned(v: int): (u: int)
    ensures LONG_MIN <= v <= LONG_MAX ==> 0 <= u < 0x1_0000_0000 && (u == v || u == v + 0x1_0000_0000)
  {
    if v < 0 then v + WORD else v
  }

  /** Only decimal output shows a sign. */
  function SignText(value: int, base: int): string {
    if base == 10 && value < 0 then "-" else ""
  }

  function IToAText(value: int, base: int): string
    requires LONG_MIN <= value <= LONG_MAX && 2 <= base <= 36
  {
    SignText(value, base) + Digits(if base == 10 && value < 0 then -value else Unsigned(value), base, false)
  }

  method IToA(value: int, str: array<char>, base: int) returns (ok: bool)
    requires LONG_MIN <= value <= LONG_MAX
    requires (if 2 <= base <= 36 then |IToAText(value, base)| else 0) < str.Length
    modifies str
    ensures ok <==> 2 <= base <= 36
    ensures ok ==> var w := IToAText(value, base); str[..|w|] == w && str[|w|] == '\0'
    ensures !ok ==> str[0] == '\0'
  {
    if base < 2 || base > 36 {
      str[0] := '\0';
      return false;
    }
    var i, uvalue := PutSign(value, str, base);
    ok := UToA(uvalue, str, i, base);
    BehindSign(str, SignText(value, base), Digits(uvalue, base, false));
  }

  /** Writes the sign, and leaves the number whose digits are to follow. */
  method PutSign(value: int, str: array<char>, base: int) returns (i: nat, uvalue: int)
    requires LONG_MIN <= value <= LONG_MAX && 2 <= base <= 36 && str.Length > 0
    modifies str
    ensures i == |SignText(value, base)| && str[..i] == SignText(value, base) && 0 <= uvalue < WORD
    ensures IToAText(value, base) == SignText(value, base) + Digits(uvalue, base, false)
  {
    i, uvalue := 0, Unsigned(value);
    if base == 10 && value < 0 {
      str[i] := '-';
      i := i + 1;
      uvalue := (WORD - value) % WORD;
    }
  }

  lemma BehindSign(str: array<char>, sign: string, w: string)
    requires |sign| + |w| <= str.Length && str[..|sign|] == sign && str[|sign|..|sign| + |w|] == w
    ensures str[..|sign + w|] == sign + w
  {
  }

  // ----- reading back what was written -----

  lemma {:induction false} SkipBlanksAt(s: string, p: nat, q: nat)
    requires p <= q <= |s| && (forall i :: p <= i < q ==> IsBlank(s[i])) && (q < |s| ==> !IsBlank(s[q]))
    ensures SkipBlanks(s, p) == q
    decreases q - p
  {
    if p < q {
      SkipBlanksAt(s, p + 1, q);
    }
  }

  /** What Scan makes of blanks, an optional sign, an optional 0x and digits up to e. */
  lemma ScanAt(s: string, base: int, p: nat, start: nat, e: nat)
    requires 2 <= base <= 36 && p < start + 1 && start < e <= |s|
    requires (forall i :: 0 <= i < p ==> IsBlank(s[i])) && !IsBlank(s[p])
    requires var q := if s[p] == '-' || s[p] == '+' then p + 1 else p;
             if HexPrefix(s, q, base) then start == q + 2 else start == q
    requires (forall i :: start <= i < e ==> IsDigit(s[i], base)) && (e < |s| ==> !IsDigit(s[e], base))
    ensures Scan(s, base) == Numeral(s[p] == '-', base, start, e)
  {
    SkipBlanksAt(s, 0, p);
    DigitsEndAt(s, start, e, base);
  }

  /** strtoul undoes utoa, and stops at the terminating NUL. */
  lemma UToARoundTrip(v: nat, base: int)
    requires v < WORD && 2 <= base <= 36
    ensures UnsignedValue(Digits(v, base, false), base) == v
    ensures v <= LONG_MAX ==> SignedValue(Digits(v, base, false), base) == v
    ensures Stopped(Digits(v, base, false), base) == |Digits(v, base, false)|
  {
    var s := Digits(v, base, false);
    DigitsValue(v, base, false);
    assert IsDigit(s[0], base) && (|s| > 1 ==> IsDigit(s[1], base));
    ScanAt(s, base, 0, 0, |s|);
    assert s[0..|s|] == s;
  }

  /** strtol undoes itoa in base 10, for all int values; in other bases strtoul gives the
      32-bit word back. */
  lemma IToARoundTrip(v: int, base: int)
    requires LONG_MIN <= v <= LONG_MAX && 2 <= base <= 36
    ensures base == 10 ==> SignedValue(IToAText(v, base), base) == v
    ensures base != 10 ==> UnsignedValue(IToAText(v, base), base) == Unsigned(v)
    ensures Stopped(IToAText(v, base), base) == |IToAText(v, base)|
  {
    var s := IToAText(v, base);
    if base == 10 && v < 0 {
      var w := Digits(-v, base, false);
      DigitsValue(-v, base, false);
      assert forall i :: 1 <= i < |s| ==> s[i] == w[i - 1];
      ScanAt(s, base, 0, 1, |s|);
      assert s[1..|s|] == w;
    } else {
      assert s == Digits(Unsigned(v), base, false);
      UToARoundTrip(Unsigned(v), base);
    }
  }
}
