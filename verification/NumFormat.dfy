/** The integer conversions of printf: width, precision, padding, sign and base prefix. */
module NumFormat {
  import opened Divisibility
  import opened NumToStr
  import opened Options
  import opened Strings
  import opened StrToNum

  datatype Flags = Flags(zeropad: bool, sign: bool, plus: bool, space: bool, left: bool, prefix: bool, upper: bool)

  function Max(a: int, b: int): int {
    if a > b then a else b
  }

  function Repeat(c: char, n: int): (s: string)
    ensures |s| == Max(n, 0) && forall i :: 0 <= i < |s| ==> s[i] == c
  {
    seq(Max(n, 0), _ => c)
  }

  /** The pieces of a formatted number, from left to right. */
  datatype Parts = Parts(lead: string, sign: string, prefix: string, zeros: string, digits: string, trail: string)

  function Render(p: Parts): string {
    p.lead + p.sign + p.prefix + p.zeros + p.digits + p.trail
  }

  /** The value printed: the magnitude if a sign is wanted, and else the 32-bit word. */
  function Printed(num: int, f: Flags): int {
    if f.sign && num < 0 then -num else Unsigned(num)
  }

  function SignOf(num: int, f: Flags): string {
    if !f.sign then "" else if num < 0 then "-" else if f.plus then "+" else if f.space then " " else ""
  }

  function PrefixOf(base: int, f: Flags): string {
    if f.prefix && base == 8 then "0" else if f.prefix && base == 16 then "0x" else ""
  }

  /** What is left of the field width: blanks before, zeros after sign and prefix, or blanks
      behind. */
  function PartsOf(num: int, base: int, size: int, precision: int, f: Flags): Parts
    requires LONG_MIN <= num <= LONG_MAX && 2 <= base <= 36
  {
    var sign, prefix := SignOf(num, f), PrefixOf(base, f);
    var digits := Digits(Printed(num, f), base, f.upper);
    var room := size - |sign| - |prefix| - Max(precision, |digits|);
    var zeros := precision - |digits|;
    if f.left then Parts("", sign, prefix, Repeat('0', zeros), digits, Repeat(' ', room))
    else if f.zeropad then Parts("", sign, prefix, Repeat('0', Max(room, 0) + Max(zeros, 0)), digits, "")
    else Parts(Repeat(' ', room), sign, prefix, Repeat('0', zeros), digits, "")
  }

  /** The length is the width, or what the number takes if that is more. */
  lemma RenderLength(num: int, base: int, size: int, precision: int, f: Flags)
    requires LONG_MIN <= num <= LONG_MAX && 2 <= base <= 36
    ensures var p := PartsOf(num, base, size, precision, f);
            |Render(p)| == Max(size, |p.sign| + |p.prefix| + Max(|p.digits|, precision))
  {
  }

  // ----- the function -----

  /** A loop that pads with c while its counter, which it leaves decremented, is positive. */
  method Pad(c: char, count: int) returns (out: string, left: int)
    ensures out == Repeat(c, count) && left == if count > 0 then -1 else count - 1
  {
    out, left := "", count;
    while left > 0
      invariant left <= count && (count > 0 ==> left >= 0) && (count <= 0 ==> left == count)
      invariant out == Repeat(c, count - left)
    {
      out, left := out + [c], left - 1;
    }
    left := left - 1;
  }

  /** Sign, magnitude, and the width left behind sign and prefix. */
  method SignAndWidth(num: int, base: int, size: int, f: Flags) returns (sign: string, n: int, width: int)
    requires LONG_MIN <= num <= LONG_MAX
    ensures sign == SignOf(num, f) && n == Printed(num, f)
    ensures width == size - |sign| - |PrefixOf(base, f)|
  {
    sign, n, width := "", Unsigned(num), size;
    if f.sign {
      if num < 0 {
        sign := "-";
        n := (WORD - n) % WORD;
        width := width - 1;
      } else if f.plus {
        sign := "+";
        width := width - 1;
      } else if f.space {
        sign := " ";
        width := width - 1;
      }
    }
    if f.prefix {
      if base == 16 {
        width := width - 2;
      } else if base == 8 {
        width := width - 1;
      }
    }
  }

  /** Blanks unless the field is padded with zeros or on the right; then sign and prefix. */
  method Head(sign: string, base: int, room: int, f: Flags) returns (str: string, width: int)
    ensures str == (if f.left || f.zeropad then "" else Repeat(' ', room)) + sign + PrefixOf(base, f)
    ensures width == if f.left || f.zeropad then room else if room > 0 then -1 else room - 1
  {
    str, width := "", room;
    if !f.zeropad && !f.left {
      str, width := Pad(' ', width);
    }
    str := str + sign;
    if f.prefix {
      if base == 8 {
        str := str + "0";
      } else if base == 16 {
        str := str + "0x";
      }
    }
  }

  /** The rest of the field before the digits, then the zeros that the precision asks for. */
  method Fill(str: string, width: int, zeros: int, f: Flags) returns (out: string, rest: int)
    requires !f.left && !f.zeropad ==> width < 0
    requires zeros >= 0
    ensures out == str + Repeat('0', zeros + if !f.left && f.zeropad then Max(width, 0) else 0)
    ensures rest == if f.left then width else if width > 0 then -1 else width - 1
  {
    var c := if f.zeropad && !f.left then '0' else ' ';
    var fill, pad, left := "", "", 0;
    rest := width;
    if !f.left {
      fill, rest := Pad(c, rest);
    }
    pad, left := Pad('0', zeros);
    assert fill + pad == Repeat('0', zeros + if !f.left && f.zeropad then Max(width, 0) else 0);
    Regroup(str, fill, pad);
    out := str + fill + pad;
  }

  /** What Head, Fill and the last loop write around the digits is the specified layout. */
  lemma Assembled(num: int, base: int, size: int, precision: int, f: Flags, room: int)
    requires LONG_MIN <= num <= LONG_MAX && 2 <= base <= 36
    requires var p := PartsOf(num, base, size, precision, f);
             room == size - |p.sign| - |p.prefix| - Max(precision, |p.digits|)
    ensures var p, padded := PartsOf(num, base, size, precision, f), !f.left && f.zeropad;
            && p.lead == (if f.left || f.zeropad then "" else Repeat(' ', room))
            && p.sign == SignOf(num, f) && p.prefix == PrefixOf(base, f)
            && p.zeros == Repeat('0', Max(precision - |p.digits|, 0) + if padded then Max(room, 0) else 0)
            && p.trail == Repeat(' ', if f.left then room else 0)
  {
  }

  method Number(num: int, base: int, size: int, precision: int, f: Flags) returns (out: Option<string>)
    requires LONG_MIN <= num <= LONG_MAX
    ensures out == if 2 <= base <= 36 then Some(Render(PartsOf(num, base, size, precision, f))) else None
  {
    if base < 2 || base > 36 {
      return None;
    }
    var sign, n, width := SignAndWidth(num, base, size, f);
    var tmp := new char[66];
    var i := LowInto(n, tmp, base, f.upper);
    var prec := if i > precision then i else precision;
    width := width - prec;
    var str := Emit(sign, width, prec - i, tmp, i, base, f, Digits(n, base, f.upper));
    Assembled(num, base, size, precision, f, width);
    out := Some(str);
  }

  /** Everything that is written, given how much of the width is left over. */
  method Emit(sign: string, room: int, zeros: nat, tmp: array<char>, len: nat, base: int, f: Flags, ghost digits: string)
    returns (str: string)
    requires len == |digits| <= tmp.Length && forall k :: 0 <= k < len ==> tmp[k] == digits[len - 1 - k]
    ensures str == (if f.left || f.zeropad then "" else Repeat(' ', room)) + sign + PrefixOf(base, f)
                   + Repeat('0', zeros + if !f.left && f.zeropad then Max(room, 0) else 0)
                   + digits + Repeat(' ', if f.left then room else 0)
  {
    var width, trail;
    str, width := Head(sign, base, room, f);
    str, width := Fill(str, width, zeros, f);
    str := AppendReversed(str, tmp, len, digits);
    trail, width := Pad(' ', width);
    assert trail == Repeat(' ', if f.left then room else 0);
    str := str + trail;
  }

  /** The loop that writes the digits out, the last produced first. */
  method AppendReversed(str: string, tmp: array<char>, len: nat, ghost digits: string) returns (out: string)
    requires len == |digits| <= tmp.Length && forall k :: 0 <= k < len ==> tmp[k] == digits[len - 1 - k]
    ensures out == str + digits
  {
    out := str;
    var i := len;
    while i > 0
      invariant 0 <= i <= len && out == str + digits[..len - i]
    {
      i := i - 1;
      assert digits[..len - i] == digits[..len - i - 1] + [digits[len - i - 1]];
      out := out + [tmp[i]];
    }
  }

  lemma Regroup(a: string, b: string, c: string)
    ensures a + b + c == a + (b + c)
  {
  }

  /** What the digit loop produces: nothing for zero. */
  function LowTail(v: nat, base: nat, upper: bool): (w: string)
    requires 2 <= base <= 36
    ensures v > 0 ==> w == LowDigits(v, base, upper)
  {
    if v == 0 then "" else [DigitChar(Remainder(v, base), upper)] + LowTail(Quotient(v, base), base, upper)
  }

  /** At most 32 of the 66 places of tmp are used. */
  lemma LowTailDigits(n: nat, base: nat, upper: bool)
    requires 0 < n < WORD && 2 <= base <= 36
    ensures var low, w := LowTail(n, base, upper), Digits(n, base, upper);
            |low| == |w| <= 32 && forall k :: 0 <= k < |w| ==> low[k] == w[|w| - 1 - k]
  {
    Pow2Values();
    DigitsShort(n, base, upper, 32);
    LowDigitsReversed(n, base, upper);
    assert LowTail(n, base, upper) == LowDigits(n, base, upper);
  }

  method LowInto(n: int, tmp: array<char>, base: int, upper: bool) returns (i: nat)
    requires 0 <= n < WORD && 2 <= base <= 36 && tmp.Length == 66
    modifies tmp
    ensures i == |Digits(n, base, upper)| <= 32
    ensures forall k :: 0 <= k < i ==> tmp[k] == Digits(n, base, upper)[i - 1 - k]
  {
    if n == 0 {
      tmp[0] := '0';
      i := 1;
    } else {
      LowTailDigits(n, base, upper);
      i := LowLoop(n, tmp, base, upper);
    }
  }

  method LowLoop(n: int, tmp: array<char>, base: int, upper: bool) returns (i: nat)
    requires n >= 0 && 2 <= base <= 36 && |LowTail(n, base, upper)| <= tmp.Length
    modifies tmp
    ensures i == |LowTail(n, base, upper)|
    ensures forall k :: 0 <= k < i ==> tmp[k] == LowTail(n, base, upper)[k]
  {
    ghost var low := LowTail(n, base, upper);
    var v := n;
    i := 0;
    while v != 0
      invariant i <= |low| && v >= 0 && low[i..] == LowTail(v, base, upper)
      invariant forall k :: 0 <= k < i ==> tmp[k] == low[k]
      decreases |low| - i
    {
      assert low[i] == low[i..][0] && low[i + 1..] == low[i..][1..];
      QuotientIsDiv(v, base);
      tmp[i] := DigitChar(v % base, upper);
      v := v / base;
      i := i + 1;
    }
  }

  // ----- reading back what was written -----

  lemma {:induction false} ZerosValue(z: string, base: int)
    requires forall i :: 0 <= i < |z| ==> z[i] == '0'
    ensures Value(z, base) == 0
  {
    if z != "" {
      ZerosValue(z[..|z| - 1], base);
    }
  }

  lemma {:induction false} LeadingZeros(z: string, w: string, base: int)
    requires forall i :: 0 <= i < |z| ==> z[i] == '0'
    ensures Value(z + w, base) == Value(w, base)
  {
    if w == "" {
      assert z + w == z;
      ZerosValue(z, base);
    } else {
      var u := w[..|w| - 1];
      assert (z + w)[..|z + w| - 1] == z + u;
      LeadingZeros(z, u, base);
    }
  }

  lemma Pieces(a: string, b: string, c: string, d: string, e: string)
    ensures var s, i, j := a + b + c + d + e, |a| + |b|, |a| + |b| + |c|;
            Occurs(s, 0, a) && Occurs(s, |a|, b) && Occurs(s, i, c) && Occurs(s, j, d) && Occurs(s, j + |d|, e)
  {
  }

  /** c behind the digits w does not belong to the number. */
  predicate EndsNumber(c: char, w: string, base: int) {
    !IsDigit(c, base) && (w == "0" ==> c != 'x' && c != 'X')
  }

  /** Blanks, sign, 0x, digits and something else: the digits w are all that counts. */
  lemma Reading(s: string, p: nat, sign: string, hex: string, w: string, base: int)
    requires 2 <= base <= 36
    requires sign == "" || sign == "+" || sign == "-"
    requires hex == "" || (base == 16 && hex == "0x")
    requires w != "" && forall i :: 0 <= i < |w| ==> IsDigit(w[i], base)
    requires Occurs(s, p, sign) && Occurs(s, p + |sign|, hex) && Occurs(s, p + |sign| + |hex|, w)
    requires forall i :: 0 <= i < p ==> IsBlank(s[i])
    requires var e := p + |sign| + |hex| + |w|; e < |s| ==> EndsNumber(s[e], w, base)
    ensures Scan(s, base) == Numeral(sign == "-", base, p + |sign| + |hex|, p + |sign| + |hex| + |w|)
  {
    var start := p + |sign| + |hex|;
    var e := start + |w|;
    forall i | start <= i < e
      ensures IsDigit(s[i], base)
    {
      assert s[start + (i - start)] == w[i - start];
    }
    StartsAt(s, p, sign, hex, w, base);
    ScanAt(s, base, p, start, e);
  }

  /** Where the digits start. */
  lemma StartsAt(s: string, p: nat, sign: string, hex: string, w: string, base: int)
    requires 2 <= base <= 36
    requires sign == "" || sign == "+" || sign == "-"
    requires hex == "" || (base == 16 && hex == "0x")
    requires w != "" && forall i :: 0 <= i < |w| ==> IsDigit(w[i], base)
    requires Occurs(s, p, sign) && Occurs(s, p + |sign|, hex) && Occurs(s, p + |sign| + |hex|, w)
    requires var e := p + |sign| + |hex| + |w|; e < |s| ==> EndsNumber(s[e], w, base)
    ensures p < |s| && !IsBlank(s[p]) && (s[p] == '-' <==> sign == "-")
    ensures var q := if s[p] == '-' || s[p] == '+' then p + 1 else p;
            p + |sign| + |hex| == if HexPrefix(s, q, base) then q + 2 else q
  {
    var q := p + |sign|;
    assert s[q + |hex| + 0] == w[0] && (|w| > 1 ==> s[q + |hex| + 1] == w[1]);
    if sign != "" {
      assert s[p + 0] == sign[0];
    }
    if hex != "" {
      assert s[q + 0] == hex[0] && s[q + 1] == hex[1];
    }
  }

  lemma RunRead(s: string, base: int, neg: bool, start: nat, w: string)
    requires w != "" && Occurs(s, start, w) && Scan(s, base) == Numeral(neg, base, start, start + |w|)
    ensures Magnitude(s, base) == Value(w, base) && Stopped(s, base) == start + |w|
  {
    OccursSlice(s, start, w);
  }

  lemma ZerosThenDigits(zeros: string, digits: string, base: int)
    requires 2 <= base <= 36 && forall i :: 0 <= i < |zeros| ==> zeros[i] == '0'
    requires forall i :: 0 <= i < |digits| ==> IsDigit(digits[i], base)
    ensures Value(zeros + digits, base) == Value(digits, base)
    ensures forall i :: 0 <= i < |zeros + digits| ==> IsDigit((zeros + digits)[i], base)
  {
    LeadingZeros(zeros, digits, base);
  }

  predicate Shaped(p: Parts, base: int) {
    && (p.sign == "" || p.sign == "+" || p.sign == "-" || p.sign == " ")
    && (p.prefix == "" || p.prefix == "0" || (base == 16 && p.prefix == "0x"))
    && (forall i :: 0 <= i < |p.zeros| ==> p.zeros[i] == '0')
    && p.digits != "" && (forall i :: 0 <= i < |p.digits| ==> IsDigit(p.digits[i], base))
    && (forall i :: 0 <= i < |p.lead| ==> p.lead[i] == ' ')
    && (forall i :: 0 <= i < |p.trail| ==> p.trail[i] == ' ')
  }

  lemma Regrouped(p: Parts, blank: bool, octal: bool)
    requires blank ==> p.sign == " "
    requires octal ==> p.prefix == "0"
    ensures var lead, sign := if blank then p.lead + " " else p.lead, if blank then "" else p.sign;
            var hex, w := if octal then "" else p.prefix, if octal then "0" + p.zeros + p.digits else p.zeros + p.digits;
            Render(p) == lead + sign + hex + w + p.trail
  {
  }

  lemma ReadPieces(lead: string, sign: string, hex: string, w: string, trail: string, base: int)
    requires 2 <= base <= 36
    requires sign == "" || sign == "+" || sign == "-"
    requires hex == "" || (base == 16 && hex == "0x")
    requires w != "" && forall i :: 0 <= i < |w| ==> IsDigit(w[i], base)
    requires (forall i :: 0 <= i < |lead| ==> IsBlank(lead[i])) && (trail != "" ==> EndsNumber(trail[0], w, base))
    ensures var s := lead + sign + hex + w + trail;
            && Magnitude(s, base) == Value(w, base) && Scan(s, base).neg == (sign == "-")
            && Stopped(s, base) == |s| - |trail|
  {
    Pieces(lead, sign, hex, w, trail);
    ReadAt(lead + sign + hex + w + trail, lead, sign, hex, w, trail, base);
  }

  lemma ReadAt(s: string, lead: string, sign: string, hex: string, w: string, trail: string, base: int)
    requires 2 <= base <= 36
    requires sign == "" || sign == "+" || sign == "-"
    requires hex == "" || (base == 16 && hex == "0x")
    requires w != "" && forall i :: 0 <= i < |w| ==> IsDigit(w[i], base)
    requires (forall i :: 0 <= i < |lead| ==> IsBlank(lead[i])) && (trail != "" ==> EndsNumber(trail[0], w, base))
    requires |s| == |lead| + |sign| + |hex| + |w| + |trail|
    requires Occurs(s, 0, lead) && Occurs(s, |lead|, sign) && Occurs(s, |lead| + |sign|, hex)
    requires Occurs(s, |lead| + |sign| + |hex|, w) && Occurs(s, |lead| + |sign| + |hex| + |w|, trail)
    ensures Magnitude(s, base) == Value(w, base) && Scan(s, base).neg == (sign == "-")
    ensures Stopped(s, base) == |s| - |trail|
  {
    var start := |lead| + |sign| + |hex|;
    forall i | 0 <= i < |lead|
      ensures IsBlank(s[i])
    {
      assert s[0 + i] == lead[i];
    }
    assert trail != "" ==> s[start + |w| + 0] == trail[0];
    Reading(s, |lead|, sign, hex, w, base);
    RunRead(s, base, sign == "-", start, w);
  }

  /** A sign that is a blank is read as one, and the 0 of octal as a digit. */
  lemma ReadParts(p: Parts, base: int)
    requires 2 <= base <= 36 && Shaped(p, base)
    ensures var s := Render(p);
            && Magnitude(s, base) == Value(p.digits, base) && Scan(s, base).neg == (p.sign == "-")
            && Stopped(s, base) == |s| - |p.trail|
  {
    var s := Render(p);
    var blank, octal := p.sign == " ", p.prefix == "0";
    var lead, sign := if blank then p.lead + " " else p.lead, if blank then "" else p.sign;
    var hex, zeros := if octal then "" else p.prefix, if octal then "0" + p.zeros else p.zeros;
    Regrouped(p, blank, octal);
    ZerosThenDigits(zeros, p.digits, base);
    ReadPieces(lead, sign, hex, zeros + p.digits, p.trail, base);
  }

  lemma PartsShaped(num: int, base: int, size: int, precision: int, f: Flags)
    requires LONG_MIN <= num <= LONG_MAX && 2 <= base <= 36
    ensures var p := PartsOf(num, base, size, precision, f);
            Shaped(p, base) && Value(p.digits, base) == Printed(num, f) && (p.sign == "-" <==> f.sign && num < 0)
  {
    DigitsValue(Printed(num, f), base, f.upper);
  }

  /** strtol gives a number that was printed with its sign back, and strtoul gives the 32-bit
      word of one that was not: in every base, for every width, precision and set of flags.
      Both stop where the blanks begin that fill the field on the right. */
  lemma ReadBack(num: int, base: int, size: int, precision: int, f: Flags)
    requires LONG_MIN <= num <= LONG_MAX && 2 <= base <= 36
    ensures var p := PartsOf(num, base, size, precision, f);
            && (f.sign ==> SignedValue(Render(p), base) == num)
            && (!f.sign ==> UnsignedValue(Render(p), base) == Unsigned(num))
            && Stopped(Render(p), base) == |Render(p)| - |p.trail|
  {
    PartsShaped(num, base, size, precision, f);
    ReadParts(PartsOf(num, base, size, precision, f), base);
  }

  // ----- the layout of a field -----

  predicate AllAre(c: char, s: string) {
    forall i :: 0 <= i < |s| ==> s[i] == c
  }

  /** Digits of the base, in letters of one case, that stand for v. */
  predicate Stands(ds: string, v: int, base: int, upper: bool) {
    && Value(ds, base) == v
    && (forall i :: 0 <= i < |ds| ==> IsDigit(ds[i], base) && !(if upper then 'a' <= ds[i] <= 'z' else 'A' <= ds[i] <= 'Z'))
  }

  /** The text of a number in a field: blanks, sign, base prefix, digits, blanks. Blanks are behind
      only in a field to the left and in front only in one to the right that is not filled with
      zeros; the digits are as many as the precision asks for, and more only for the value or to
      fill the field; the field is as wide as asked for, and wider only without any filling. */
  predicate Laid(lead: string, sign: string, prefix: string, ds: string, trail: string,
                 num: int, base: int, size: int, precision: int, f: Flags)
  {
    var length := |lead| + |sign| + |prefix| + |ds| + |trail|;
    && AllAre(' ', lead) && AllAre(' ', trail)
    && (lead != "" ==> !f.left && !f.zeropad) && (trail != "" ==> f.left)
    && (f.sign && num < 0 ==> sign == "-")
    && (f.sign && num >= 0 ==> sign == if f.plus then "+" else if f.space then " " else "")
    && (!f.sign ==> sign == "")
    && prefix == (if f.prefix && base == 8 then "0" else if f.prefix && base == 16 then "0x" else "")
    && Stands(ds, if !f.sign && num < 0 then num + 0x1_0000_0000 else if num < 0 then -num else num, base, f.upper)
    && |ds| >= 1 && |ds| >= precision && length >= size
    && (|ds| > precision && |ds| > 1 && ds[0] == '0' ==> f.zeropad && !f.left && length == size)
    && (lead != "" || trail != "" ==> length == size)
  }

  lemma {:induction false} FirstDigit(n: nat, base: nat, upper: bool)
    requires n > 0 && 2 <= base <= 36
    ensures Digits(n, base, upper)[0] != '0'
  {
    if n >= base {
      FirstDigit(Quotient(n, base), base, upper);
    }
  }

  lemma {:induction false} DigitsCase(n: nat, base: nat, upper: bool)
    requires 2 <= base <= 36
    ensures forall i :: 0 <= i < |Digits(n, base, upper)| ==>
              var c := Digits(n, base, upper)[i]; !(if upper then 'a' <= c <= 'z' else 'A' <= c <= 'Z')
  {
    if n >= base {
      DigitsCase(Quotient(n, base), base, upper);
    }
  }

  lemma ZerosStand(zeros: string, digits: string, v: int, base: int, upper: bool)
    requires 2 <= base <= 36 && AllAre('0', zeros) && Stands(digits, v, base, upper)
    ensures Stands(zeros + digits, v, base, upper)
  {
    ZerosThenDigits(zeros, digits, base);
  }

  /** The text of a number is laid out as its flags, width and precision ask for. */
  lemma Layout(num: int, base: int, size: int, precision: int, f: Flags)
    returns (lead: string, sign: string, prefix: string, ds: string, trail: string)
    requires LONG_MIN <= num <= LONG_MAX && 2 <= base <= 36
    ensures Render(PartsOf(num, base, size, precision, f)) == lead + sign + prefix + ds + trail
    ensures Laid(lead, sign, prefix, ds, trail, num, base, size, precision, f)
  {
    var p := PartsOf(num, base, size, precision, f);
    lead, sign, prefix, ds, trail := p.lead, p.sign, p.prefix, p.zeros + p.digits, p.trail;
    Joined(p);
    DigitsStand(num, base, size, precision, f);
    RoomUsed(num, base, size, precision, f);
    NoZeroInFront(p.zeros, Printed(num, f), base, f.upper);
  }

  lemma DigitsStand(num: int, base: int, size: int, precision: int, f: Flags)
    requires LONG_MIN <= num <= LONG_MAX && 2 <= base <= 36
    ensures var p := PartsOf(num, base, size, precision, f); Stands(p.zeros + p.digits, Printed(num, f), base, f.upper)
  {
    var p, v := PartsOf(num, base, size, precision, f), Printed(num, f);
    DigitsValue(v, base, f.upper);
    DigitsCase(v, base, f.upper);
    ZerosStand(p.zeros, p.digits, v, base, f.upper);
  }

  lemma NoZeroInFront(zeros: string, v: nat, base: nat, upper: bool)
    requires 2 <= base <= 36
    ensures var ds := zeros + Digits(v, base, upper); |ds| > 1 && ds[0] == '0' ==> zeros != ""
  {
    if v > 0 {
      FirstDigit(v, base, upper);
    }
  }

  lemma Joined(p: Parts)
    ensures Render(p) == p.lead + p.sign + p.prefix + (p.zeros + p.digits) + p.trail
  {
  }

  /** How the pieces share the field. */
  lemma RoomUsed(num: int, base: int, size: int, precision: int, f: Flags)
    requires LONG_MIN <= num <= LONG_MAX && 2 <= base <= 36
    ensures var p := PartsOf(num, base, size, precision, f);
            var length := |p.lead| + |p.sign| + |p.prefix| + |p.zeros| + |p.digits| + |p.trail|;
            && |p.zeros| + |p.digits| >= precision && length >= size
            && (p.lead != "" || p.trail != "" ==> length == size)
            && (p.zeros != "" ==> |p.zeros| + |p.digits| == precision || (f.zeropad && !f.left && length == size))
  {
  }
}
