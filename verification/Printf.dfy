/** vsprintf: format strings as lists of pieces, and what each piece prints. */
module Printf {
  import opened Addresses
  import opened NumFormat
  import opened NumToStr
  import opened Options
  import opened StrToNum
  import opened Strings

  const NUL := '\0'

  // ----- format strings -----

  /** A width or precision: none, a dot with nothing behind, a number, or taken from the
      arguments. */
  datatype Count = Absent | Bare | Fixed(n: int) | Star

  /** A character, or a directive. Its kind is NUL where the string ends inside it. */
  datatype Piece = Plain(c: char) | Directive(flags: string, width: Count, precision: Count, qualifier: char, kind: char)

  datatype Format = End | Then(piece: Piece, rest: Format)

  predicate IsFlag(c: char) {
    c in "-+ #0"
  }

  function FlagsEnd(s: string, p: nat): (q: nat)
    requires p <= |s|
    ensures p <= q <= |s|
    decreases |s| - p
  {
    if p < |s| && IsFlag(s[p]) then FlagsEnd(s, p + 1) else p
  }

  function CountAt(s: string, p: nat): (r: (Count, nat))
    requires p <= |s|
    ensures p <= r.1 <= |s| && !r.0.Bare?
  {
    if IsDigit(CharAt(s, p), 10) then
      var e := DigitsEnd(s, p, 10);
      (Fixed(Value(s[p..e], 10)), e)
    else if CharAt(s, p) == '*' then (Star, p + 1)
    else (Absent, p)
  }

  function PrecisionAt(s: string, p: nat): (r: (Count, nat))
    requires p <= |s|
    ensures p <= r.1 <= |s|
  {
    if CharAt(s, p) == '.' then
      var (c, q) := CountAt(s, p + 1);
      (if c.Absent? then Bare else c, q)
    else (Absent, p)
  }

  function QualifierEnd(s: string, p: nat): (q: nat)
    requires p <= |s|
    ensures p <= q <= |s|
  {
    if CharAt(s, p) == 'l' || CharAt(s, p) == 'L' then p + 1 else p
  }

  function DirectiveAt(s: string, p: nat): (r: (Piece, nat))
    requires p < |s|
    ensures p < r.1 <= |s|
  {
    var f := FlagsEnd(s, p + 1);
    var (w, i) := CountAt(s, f);
    var (pr, j) := PrecisionAt(s, i);
    var k := QualifierEnd(s, j);
    (Directive(s[p + 1..f], w, pr, if k > j then s[j] else NUL, CharAt(s, k)), if k < |s| then k + 1 else k)
  }

  function PieceAt(s: string, p: nat): (r: (Piece, nat))
    requires p < |s|
    ensures p < r.1 <= |s|
  {
    if s[p] != '%' then (Plain(s[p]), p + 1) else DirectiveAt(s, p)
  }

  function Parse(s: string, p: nat): Format
    requires p <= |s|
    decreases |s| - p
  {
    if p == |s| then End
    else
      var (piece, q) := PieceAt(s, p);
      Then(piece, Parse(s, q))
  }

  // ----- what is printed -----

  datatype Arg = Int(v: int) | Str(s: Option<string>) | Addr(bytes: seq<int>)

  /** The number that a width or precision stands for, and the arguments left. */
  function Setting(c: Count, args: seq<Arg>): Option<(int, seq<Arg>)> {
    match c
    case Absent => Some((-1, args))
    case Bare => Some((0, args))
    case Fixed(n) => Some((n, args))
    case Star => if args != [] && args[0].Int? then Some((args[0].v, args[1..])) else None
  }

  function Justified(t: string, width: int, left: bool): string {
    if left then t + Repeat(' ', width - |t|) else Repeat(' ', width - |t|) + t
  }

  /** Directives whose letters are printed in upper case. */
  predicate IsUpper(kind: char) {
    kind == 'X' || kind == 'A'
  }

  function FlagsOf(flags: string, kind: char, left: bool): Flags {
    Flags('0' in flags, kind == 'd' || kind == 'i', '+' in flags, ' ' in flags, left, '#' in flags, IsUpper(kind))
  }

  function BaseOf(kind: char): (b: int)
    ensures 2 <= b <= 36
  {
    if kind == 'o' then 8 else if kind == 'x' || kind == 'X' then 16 else 10
  }

  predicate IsInt(a: seq<Arg>) {
    a != [] && a[0].Int? && LONG_MIN <= a[0].v <= LONG_MAX
  }

  predicate IsAddr(a: seq<Arg>, n: nat) {
    a != [] && a[0].Addr? && |a[0].bytes| >= n && AreBytes(a[0].bytes)
  }

  /** Six bytes after the qualifier l, four otherwise. */
  function AddrShown(qualifier: char, bytes: seq<int>, upper: bool): string
    requires AreBytes(bytes) && |bytes| >= if qualifier == 'l' then ETHER else INET
  {
    if qualifier == 'l' then Address(bytes[..ETHER], true, upper) else Address(bytes[..INET], false, false)
  }

  function Shown(s: Option<string>, precision: int): string {
    var t := if s.None? then "<NULL>" else UpToNul(s.value);
    if 0 <= precision < |t| then t[..precision] else t
  }

  /** The text of one conversion and the arguments left; nothing where the source has no
      defined behaviour. */
  function Converted(kind: char, qualifier: char, f: Flags, width: int, precision: int, args: seq<Arg>)
    : Option<(string, seq<Arg>)>
  {
    if kind in "diuoxX" then
      if IsInt(args) then Some((Render(PartsOf(args[0].v, BaseOf(kind), width, precision, f)), args[1..])) else None
    else if kind == 'p' then
      if IsInt(args) then
        var (w, g) := if width == -1 then (8, f.(zeropad := true)) else (width, f);
        Some((Render(PartsOf(args[0].v, 16, w, precision, g)), args[1..]))
      else None
    else if kind == 'c' then
      if IsInt(args) then Some((Justified([(Unsigned(args[0].v) % 0x100) as char], width, f.left), args[1..])) else None
    else if kind == 's' then
      if args != [] && args[0].Str? then Some((Justified(Shown(args[0].s, precision), width, f.left), args[1..])) else None
    else if kind in "aA" then
      if IsAddr(args, if qualifier == 'l' then ETHER else INET) then
        Some((Justified(AddrShown(qualifier, args[0].bytes, f.upper), width, f.left), args[1..]))
      else None
    else Some((if kind == '%' || kind == NUL then "%" else ['%', kind], args))
  }

  /** Flags, width and precision of a conversion, with their arguments taken. */
  datatype Settings = Settings(f: Flags, width: int, precision: int, args: seq<Arg>)

  function SettingsOf(flags: string, width: Count, precision: Count, kind: char, args: seq<Arg>): Option<Settings> {
    match Setting(width, args)
    case None => None
    case Some((w, args1)) =>
      match Setting(precision, args1)
      case None => None
      case Some((pr, args2)) =>
        var turned := width.Star? && w < 0;
        Some(Settings(FlagsOf(flags, kind, '-' in flags || turned), if turned then -w else w,
                      if !precision.Absent? && pr < 0 then 0 else pr, args2))
  }

  function PieceOut(x: Piece, args: seq<Arg>): Option<(string, seq<Arg>)> {
    match x
    case Plain(c) => Some(([c], args))
    case Directive(flags, width, precision, qualifier, kind) =>
      match SettingsOf(flags, width, precision, kind, args)
      case None => None
      case Some(t) => Converted(kind, qualifier, t.f, t.width, t.precision, t.args)
  }

  /** What a format prints behind out. */
  function Printed(f: Format, args: seq<Arg>, out: string): Option<string> {
    match f
    case End => Some(out)
    case Then(x, rest) =>
      match PieceOut(x, args)
      case None => None
      case Some((t, more)) => Printed(rest, more, out + t)
  }

  // ----- numbers printed can be read -----

  lemma ConvertedReadsBack(kind: char, qualifier: char, f: Flags, width: int, precision: int, args: seq<Arg>)
    requires kind in "diuoxX" && IsInt(args) && (f.sign <==> kind == 'd' || kind == 'i')
    ensures var r := Converted(kind, qualifier, f, width, precision, args);
            && r.Some? && r.value.1 == args[1..]
            && if f.sign then SignedValue(r.value.0, 10) == args[0].v
               else UnsignedValue(r.value.0, BaseOf(kind)) == Unsigned(args[0].v)
  {
    ReadBack(args[0].v, BaseOf(kind), width, precision, f);
  }

  /** What an integer directive prints, strtol or strtoul gives back, whatever its flags, width
      and precision. */
  lemma DirectiveReadsBack(x: Piece, args: seq<Arg>)
    requires x.Directive? && x.kind in "diuoxX" && PieceOut(x, args).Some?
    ensures var (t, more) := PieceOut(x, args).value;
            var used := |args| - |more| - 1;
            && 0 <= used < |args| && args[used].Int?
            && if x.kind == 'd' || x.kind == 'i' then SignedValue(t, 10) == args[used].v
               else UnsignedValue(t, BaseOf(x.kind)) == Unsigned(args[used].v)
  {
    var t := SettingsOf(x.flags, x.width, x.precision, x.kind, args).value;
    SettingsLeave(x.flags, x.width, x.precision, x.kind, args);
    ConvertedReadsBack(x.kind, x.qualifier, t.f, t.width, t.precision, t.args);
  }

  /** Width and precision take at most two arguments, from the front. */
  lemma SettingsLeave(flags: string, width: Count, precision: Count, kind: char, args: seq<Arg>)
    requires SettingsOf(flags, width, precision, kind, args).Some?
    ensures var t, n := SettingsOf(flags, width, precision, kind, args).value, |args|;
            && n - 2 <= |t.args| <= n && t.args == args[n - |t.args|..]
            && (t.f.sign <==> kind == 'd' || kind == 'i')
  {
  }

  // ----- what each directive prints -----

  /** A width or precision written out, or none for -1. */
  function Written(n: int): Count {
    if n < 0 then Absent else Fixed(n)
  }

  /** A width from the arguments is as good as one written out, and a negative one as its
      magnitude behind a minus flag. */
  lemma StarWidth(flags: string, n: int, precision: Count, qualifier: char, kind: char, args: seq<Arg>)
    ensures PieceOut(Directive(flags, Star, precision, qualifier, kind), [Int(n)] + args) ==
            var (flags', w) := if n < 0 then (flags + "-", -n) else (flags, n);
            PieceOut(Directive(flags', Fixed(w), precision, qualifier, kind), args)
  {
    assert ([Int(n)] + args)[1..] == args;
  }

  /** So is a precision from the arguments, where a negative one counts as 0, as does a dot with
      nothing behind. */
  lemma StarPrecision(flags: string, width: Count, n: int, qualifier: char, kind: char, args: seq<Arg>)
    requires !width.Star?
    ensures PieceOut(Directive(flags, width, Star, qualifier, kind), [Int(n)] + args) ==
            PieceOut(Directive(flags, width, Fixed(if n < 0 then 0 else n), qualifier, kind), args)
    ensures PieceOut(Directive(flags, width, Bare, qualifier, kind), args) ==
            PieceOut(Directive(flags, width, Fixed(0), qualifier, kind), args)
  {
    assert ([Int(n)] + args)[1..] == args;
  }

  /** Flags, width and precision of a directive without stars. */
  lemma PieceConverted(flags: string, w: int, pr: int, qualifier: char, kind: char, args: seq<Arg>)
    requires w >= -1 && pr >= -1
    ensures PieceOut(Directive(flags, Written(w), Written(pr), qualifier, kind), args) ==
            Converted(kind, qualifier, FlagsOf(flags, kind, '-' in flags), w, pr, args)
  {
    assert SettingsOf(flags, Written(w), Written(pr), kind, args) ==
           Some(Settings(FlagsOf(flags, kind, '-' in flags), w, pr, args));
  }

  lemma NumberConverted(kind: char, qualifier: char, f: Flags, w: int, pr: int, v: int, more: seq<Arg>)
    requires LONG_MIN <= v <= LONG_MAX
    ensures kind in "diuoxX" ==>
              Converted(kind, qualifier, f, w, pr, [Int(v)] + more) ==
              Some((Render(PartsOf(v, BaseOf(kind), w, pr, f)), more))
    ensures Converted('p', qualifier, f, w, pr, [Int(v)] + more) ==
            Some((Render(PartsOf(v, 16, if w == -1 then 8 else w, pr, f.(zeropad := w == -1 || f.zeropad))), more))
  {
    assert ([Int(v)] + more)[1..] == more;
  }

  /** d and i print with sign, u, o, x and X the 32-bit word, in bases 10, 8 and 16; the flags are
      minus for a field to the left, 0 for zeros in front, plus and blank for the sign, # for the
      base. */
  lemma IntegerDirective(flags: string, w: int, pr: int, qualifier: char, kind: char, v: int, more: seq<Arg>)
    returns (lead: string, sign: string, prefix: string, ds: string, trail: string)
    requires kind in "diuoxX" && LONG_MIN <= v <= LONG_MAX && w >= -1 && pr >= -1
    ensures PieceOut(Directive(flags, Written(w), Written(pr), qualifier, kind), [Int(v)] + more) ==
            Some((lead + sign + prefix + ds + trail, more))
    ensures var base := if kind == 'o' then 8 else if kind == 'x' || kind == 'X' then 16 else 10;
            var signed := kind == 'd' || kind == 'i';
            var f := Flags('0' in flags, signed, '+' in flags, ' ' in flags, '-' in flags, '#' in flags, kind == 'X');
            Laid(lead, sign, prefix, ds, trail, v, base, w, pr, f)
  {
    var f := FlagsOf(flags, kind, '-' in flags);
    PieceConverted(flags, w, pr, qualifier, kind, [Int(v)] + more);
    NumberConverted(kind, qualifier, f, w, pr, v, more);
    lead, sign, prefix, ds, trail := Layout(v, BaseOf(kind), w, pr, f);
    UpperKinds(kind);
  }

  lemma UpperKinds(kind: char)
    requires kind in "diuoxX"
    ensures IsUpper(kind) <==> kind == 'X'
    ensures BaseOf(kind) == if kind == 'o' then 8 else if kind == 'x' || kind == 'X' then 16 else 10
  {
  }

  /** p prints the 32-bit word in hexadecimal, without a width in a field of eight filled with
      zeros. */
  lemma PointerDirective(flags: string, w: int, pr: int, qualifier: char, v: int, more: seq<Arg>)
    returns (lead: string, sign: string, prefix: string, ds: string, trail: string)
    requires LONG_MIN <= v <= LONG_MAX && w >= -1 && pr >= -1
    ensures PieceOut(Directive(flags, Written(w), Written(pr), qualifier, 'p'), [Int(v)] + more) ==
            Some((lead + sign + prefix + ds + trail, more))
    ensures Laid(lead, sign, prefix, ds, trail, v, 16, if w == -1 then 8 else w, pr,
                 Flags(w == -1 || '0' in flags, false, '+' in flags, ' ' in flags, '-' in flags, '#' in flags, false))
  {
    var f := FlagsOf(flags, 'p', '-' in flags);
    PieceConverted(flags, w, pr, qualifier, 'p', [Int(v)] + more);
    NumberConverted('p', qualifier, f, w, pr, v, more);
    lead, sign, prefix, ds, trail := Layout(v, 16, if w == -1 then 8 else w, pr, f.(zeropad := w == -1 || f.zeropad));
  }

  /** Plain %p is read back by strtoul in base 16, and has eight digits. */
  lemma PointerReadsBack(v: int, more: seq<Arg>)
    requires LONG_MIN <= v <= LONG_MAX
    ensures var r := PieceOut(Directive("", Absent, Absent, NUL, 'p'), [Int(v)] + more);
            && r.Some? && r.value.1 == more && |r.value.0| == 8
            && UnsignedValue(r.value.0, 16) == (if v < 0 then v + 0x1_0000_0000 else v)
  {
    var f := FlagsOf("", 'p', false);
    PieceConverted("", -1, -1, NUL, 'p', [Int(v)] + more);
    NumberConverted('p', NUL, f, -1, -1, v, more);
    ReadBack(v, 16, 8, -1, f.(zeropad := true));
    RenderLength(v, 16, 8, -1, f.(zeropad := true));
    EightPlaces();
    HexShort(Unsigned(v), 8);
  }

  /** 16 to the power k. */
  function Places(k: nat): nat {
    if k == 0 then 1 else 16 * Places(k - 1)
  }

  lemma {:induction false} HexShort(v: nat, k: nat)
    requires k >= 1 && v < Places(k)
    ensures |Digits(v, 16, false)| <= k
  {
    assert Places(1) == 16 * Places(0) == 16;
    if v >= 16 {
      Divisibility.QuotientRemainder(v, 16);
      HexShort(Divisibility.Quotient(v, 16), k - 1);
    }
  }

  lemma EightPlaces()
    ensures Places(8) == 0x1_0000_0000
  {
    assert Places(2) == 0x100 && Places(4) == 0x100 * Places(2) && Places(6) == 0x100 * Places(4);
  }

  /** body at one end of a field that is as wide as asked for, if there is room for it. */
  predicate InField(t: string, body: string, w: int, left: bool) {
    && |t| == (if w > |body| then w else |body|)
    && if left then t[..|body|] == body && AllAre(' ', t[|body|..])
       else t[|t| - |body|..] == body && AllAre(' ', t[..|t| - |body|])
  }

  lemma JustifiedInField(body: string, w: int, left: bool)
    ensures InField(Justified(body, w, left), body, w, left)
  {
  }

  lemma DirectiveField(flags: string, w: int, pr: int, qualifier: char, kind: char, args: seq<Arg>, body: string)
    requires w >= -1 && pr >= -1 && kind in "csaA" && args != []
    requires Converted(kind, qualifier, FlagsOf(flags, kind, '-' in flags), w, pr, args) ==
             Some((Justified(body, w, '-' in flags), args[1..]))
    ensures var r := PieceOut(Directive(flags, Written(w), Written(pr), qualifier, kind), args);
            r.Some? && r.value.1 == args[1..] && InField(r.value.0, body, w, '-' in flags)
  {
    JustifiedInField(body, w, '-' in flags);
    PieceConverted(flags, w, pr, qualifier, kind, args);
  }

  /** s prints the characters of its argument up to the NUL, all of them or as many as the
      precision allows, and <NULL> for no string; m is the length of the string. */
  lemma StringDirective(flags: string, w: int, pr: int, qualifier: char, p: Option<string>, m: nat, more: seq<Arg>)
    requires w >= -1 && pr >= -1
    requires p.Some? ==> m <= |p.value| && NUL !in p.value[..m] && (m < |p.value| ==> p.value[m] == NUL)
    ensures var text := if p.Some? then p.value[..m] else "<NULL>";
            var n := if 0 <= pr < |text| then pr else |text|;
            var r := PieceOut(Directive(flags, Written(w), Written(pr), qualifier, 's'), [Str(p)] + more);
            r.Some? && r.value.1 == more && InField(r.value.0, text[..n], w, '-' in flags)
  {
    var text := if p.Some? then p.value[..m] else "<NULL>";
    var n := if 0 <= pr < |text| then pr else |text|;
    var args := [Str(p)] + more;
    assert args[1..] == more;
    ShownIs(p, m, pr);
    DirectiveField(flags, w, pr, qualifier, 's', args, text[..n]);
  }

  lemma ShownIs(p: Option<string>, m: nat, pr: int)
    requires p.Some? ==> m <= |p.value| && NUL !in p.value[..m] && (m < |p.value| ==> p.value[m] == NUL)
    ensures var text := if p.Some? then p.value[..m] else "<NULL>";
            Shown(p, pr) == text[..if 0 <= pr < |text| then pr else |text|]
  {
    if p.Some? {
      UpToNulAt(p.value, m);
    }
    var text := if p.Some? then p.value[..m] else "<NULL>";
    assert text[..|text|] == text;
  }

  lemma {:induction false} UpToNulAt(s: string, m: nat)
    requires m <= |s| && NUL !in s[..m] && (m < |s| ==> s[m] == NUL)
    ensures UpToNul(s) == s[..m]
  {
    if m > 0 {
      assert s[0] in s[..m] && s[1..][..m - 1] == s[..m][1..] && s[..m] == [s[0]] + s[..m][1..];
      UpToNulAt(s[1..], m - 1);
    }
  }

  /** c prints the low byte of its argument. */
  lemma CharDirective(flags: string, w: int, pr: int, qualifier: char, v: int, more: seq<Arg>)
    requires w >= -1 && pr >= -1 && LONG_MIN <= v <= LONG_MAX
    ensures var r := PieceOut(Directive(flags, Written(w), Written(pr), qualifier, 'c'), [Int(v)] + more);
            r.Some? && r.value.1 == more && InField(r.value.0, [(v % 0x100) as char], w, '-' in flags)
  {
    var args := [Int(v)] + more;
    assert args[1..] == more && Unsigned(v) % 0x100 == v % 0x100;
    DirectiveField(flags, w, pr, qualifier, 'c', args, [(v % 0x100) as char]);
  }

  /** a and A print an address: six bytes behind an l, and four otherwise. */
  lemma AddressDirective(flags: string, w: int, pr: int, qualifier: char, kind: char, bytes: seq<int>, more: seq<Arg>)
    requires w >= -1 && pr >= -1 && kind in "aA" && AreBytes(bytes) && |bytes| >= if qualifier == 'l' then 6 else 4
    ensures var ether := qualifier == 'l';
            var text := Address(bytes[..if ether then 6 else 4], ether, ether && kind == 'A');
            var r := PieceOut(Directive(flags, Written(w), Written(pr), qualifier, kind), [Addr(bytes)] + more);
            r.Some? && r.value.1 == more && InField(r.value.0, text, w, '-' in flags)
  {
    var text := if qualifier == 'l' then Address(bytes[..6], true, kind == 'A') else Address(bytes[..4], false, false);
    var args := [Addr(bytes)] + more;
    assert args[1..] == more;
    DirectiveField(flags, w, pr, qualifier, kind, args, text);
  }

  /** Two percent signs print one, other characters are printed as they stand, and a format that
      ends inside a directive prints the percent sign; none takes an argument. */
  lemma OtherDirective(flags: string, w: int, pr: int, qualifier: char, kind: char, args: seq<Arg>)
    requires w >= -1 && pr >= -1 && kind !in "diuoxXpcsaA"
    ensures PieceOut(Directive(flags, Written(w), Written(pr), qualifier, kind), args) ==
            Some((if kind == '%' || kind == NUL then "%" else "%" + [kind], args))
  {
    assert "%" + [kind] == ['%', kind];
  }

  // ----- the text of a format -----

  function CountText(c: Count): string {
    match c
    case Fixed(n) => if n >= 0 then Digits(n, 10, false) else ""
    case Star => "*"
    case _ => ""
  }

  function PrecisionText(c: Count): string {
    if c.Absent? then "" else "." + CountText(c)
  }

  function CharText(c: char): string {
    if c == NUL then "" else [c]
  }

  function PieceText(x: Piece): string {
    match x
    case Plain(c) => [c]
    case Directive(flags, width, precision, qualifier, kind) =>
      "%" + (flags + (CountText(width) + (PrecisionText(precision) + (CharText(qualifier) + CharText(kind)))))
  }

  function Text(f: Format): string {
    match f
    case End => ""
    case Then(x, rest) => PieceText(x) + Text(rest)
  }

  /** Characters that a directive can end with. */
  predicate IsKind(c: char) {
    !IsFlag(c) && !IsDigit(c, 10) && c != '*' && c != '.' && c != 'l' && c != 'L'
  }

  predicate LegalPiece(x: Piece) {
    match x
    case Plain(c) => c != '%' && c != NUL
    case Directive(flags, width, precision, qualifier, kind) =>
      && (forall i :: 0 <= i < |flags| ==> IsFlag(flags[i]))
      && (width.Fixed? ==> width.n > 0) && !width.Bare? && (precision.Fixed? ==> precision.n >= 0)
      && (qualifier == NUL || qualifier == 'l' || qualifier == 'L') && IsKind(kind)
  }

  /** Only the last directive may be cut short by the end of the string. */
  predicate Legal(f: Format) {
    f.Then? ==> LegalPiece(f.piece) && Legal(f.rest) && (f.piece.Directive? && f.piece.kind == NUL ==> f.rest == End)
  }

  lemma {:induction false} FlagsEndAt(s: string, p: nat, q: nat)
    requires p <= q <= |s| && (forall i :: p <= i < q ==> IsFlag(s[i])) && !IsFlag(CharAt(s, q))
    ensures FlagsEnd(s, p) == q
    decreases q - p
  {
    if p < q {
      FlagsEndAt(s, p + 1, q);
    }
  }

  lemma HeadOf(s: string, p: nat, w: string)
    requires Occurs(s, p, w) && w != ""
    ensures s[p] == w[0]
  {
    assert s[p + 0] == w[0];
  }

  lemma OccursParts(s: string, p: nat, a: string, b: string)
    requires Occurs(s, p, a + b)
    ensures Occurs(s, p, a) && Occurs(s, p + |a|, b)
  {
    forall i | 0 <= i < |a|
      ensures s[p + i] == a[i]
    {
      assert (a + b)[i] == a[i];
    }
    forall i | 0 <= i < |b|
      ensures s[p + |a| + i] == b[i]
    {
      assert s[p + (|a| + i)] == (a + b)[|a| + i];
    }
  }

  lemma CountRead(s: string, p: nat, c: Count)
    requires Occurs(s, p, CountText(c)) && !c.Bare? && (c.Fixed? ==> c.n >= 0)
    requires var e := p + |CountText(c)|; !IsDigit(CharAt(s, e), 10) && (c.Absent? ==> CharAt(s, e) != '*')
    ensures CountAt(s, p) == (c, p + |CountText(c)|)
  {
    if c.Fixed? {
      var w := CountText(c);
      var e := p + |w|;
      DigitsValue(c.n, 10, false);
      assert s[p + 0] == w[0];
      assert forall i :: p <= i < e ==> s[i] == w[i - p];
      DigitsEndAt(s, p, e, 10);
      OccursSlice(s, p, w);
    } else if c.Star? {
      HeadOf(s, p, "*");
    }
  }

  /** The pieces of a directive in the text s, with the positions where they start. */
  ghost predicate Spelled(s: string, p: nat, x: Piece, f: nat, i: nat, j: nat, k: nat)
    requires x.Directive?
  {
    && f == p + 1 + |x.flags| && i == f + |CountText(x.width)| && j == i + |PrecisionText(x.precision)|
    && k == j + |CharText(x.qualifier)|
    && p < |s| && s[p] == '%' && Occurs(s, p + 1, x.flags) && Occurs(s, f, CountText(x.width))
    && Occurs(s, i, PrecisionText(x.precision)) && Occurs(s, j, CharText(x.qualifier)) && Occurs(s, k, CharText(x.kind))
  }

  lemma Spelling(s: string, p: nat, x: Piece) returns (f: nat, i: nat, j: nat, k: nat)
    requires x.Directive? && Occurs(s, p, PieceText(x))
    ensures Spelled(s, p, x, f, i, j, k) && k + |CharText(x.kind)| == p + |PieceText(x)|
    ensures p < |s| && s[p] == '%' && (x.kind == NUL ==> k == p + |PieceText(x)|)
  {
    FiveParts(s, p, x.flags, CountText(x.width), PrecisionText(x.precision), CharText(x.qualifier), CharText(x.kind));
    f := p + 1 + |x.flags|;
    i := f + |CountText(x.width)|;
    j := i + |PrecisionText(x.precision)|;
    k := j + |CharText(x.qualifier)|;
  }

  lemma FiveParts(s: string, p: nat, a: string, b: string, c: string, d: string, e: string)
    requires Occurs(s, p, "%" + (a + (b + (c + (d + e)))))
    ensures p < |s| && s[p] == '%' && Occurs(s, p + 1, a) && Occurs(s, p + 1 + |a|, b) && Occurs(s, p + 1 + |a| + |b|, c)
    ensures Occurs(s, p + 1 + |a| + |b| + |c|, d) && Occurs(s, p + 1 + |a| + |b| + |c| + |d|, e)
  {
    OccursParts(s, p, "%", a + (b + (c + (d + e))));
    HeadOf(s, p, "%");
    OccursParts(s, p + 1, a, b + (c + (d + e)));
    OccursParts(s, p + 1 + |a|, b, c + (d + e));
    OccursParts(s, p + 1 + |a| + |b|, c, d + e);
    OccursParts(s, p + 1 + |a| + |b| + |c|, d, e);
  }

  /** The characters at which the parts of a directive end. */
  lemma Boundaries(s: string, p: nat, x: Piece, f: nat, i: nat, j: nat, k: nat)
    requires x.Directive? && LegalPiece(x) && Spelled(s, p, x, f, i, j, k) && (x.kind == NUL ==> k == |s|)
    ensures CharAt(s, k) == x.kind
    ensures CharAt(s, j) == if x.qualifier == NUL then x.kind else x.qualifier
    ensures CharAt(s, i) == if x.precision.Absent? then CharAt(s, j) else '.'
    ensures x.width.Absent? ==> CharAt(s, f) == CharAt(s, i)
    ensures !IsFlag(CharAt(s, f))
  {
    CharHere(s, k, x.kind);
    CharHere(s, j, x.qualifier);
    if !x.precision.Absent? {
      HeadOf(s, i, PrecisionText(x.precision));
    }
    if !x.width.Absent? {
      CountHead(x.width);
      HeadOf(s, f, CountText(x.width));
    }
  }

  lemma CharHere(s: string, p: nat, c: char)
    requires Occurs(s, p, CharText(c))
    ensures c != NUL ==> CharAt(s, p) == c
  {
    if c != NUL {
      HeadOf(s, p, CharText(c));
    }
  }

  /** The text of a width does not start like a flag. */
  lemma CountHead(c: Count)
    requires c.Star? || (c.Fixed? && c.n > 0)
    ensures CountText(c) != "" && !IsFlag(CountText(c)[0])
  {
    if c.Fixed? {
      FirstDigit(c.n, 10, false);
      DigitsValue(c.n, 10, false);
    }
  }

  lemma PrecisionRead(s: string, p: nat, c: Count)
    requires Occurs(s, p, PrecisionText(c)) && (c.Fixed? ==> c.n >= 0)
    requires var ch := CharAt(s, p + |PrecisionText(c)|); !IsDigit(ch, 10) && ch != '*' && ch != '.'
    ensures PrecisionAt(s, p) == (c, p + |PrecisionText(c)|)
  {
    if !c.Absent? {
      OccursParts(s, p, ".", CountText(c));
      HeadOf(s, p, ".");
      CountRead(s, p + 1, if c.Bare? then Absent else c);
    }
  }

  lemma DirectiveRead(s: string, p: nat, x: Piece)
    requires x.Directive? && LegalPiece(x) && Occurs(s, p, PieceText(x))
    requires x.kind == NUL ==> p + |PieceText(x)| == |s|
    ensures p < |s| && s[p] == '%' && DirectiveAt(s, p) == (x, p + |PieceText(x)|)
  {
    var f, i, j, k := Spelling(s, p, x);
    SpelledRead(s, p, x, f, i, j, k, p + |PieceText(x)|);
  }

  lemma SpelledRead(s: string, p: nat, x: Piece, f: nat, i: nat, j: nat, k: nat, e: nat)
    requires x.Directive? && LegalPiece(x) && Spelled(s, p, x, f, i, j, k) && (x.kind == NUL ==> k == |s|)
    requires e == k + |CharText(x.kind)|
    ensures DirectiveAt(s, p) == (x, e)
  {
    Boundaries(s, p, x, f, i, j, k);
    EndsAfter(x.qualifier, x.kind, CharAt(s, j));
    CountsRead(s, p, x.flags, x.width, x.precision, f, i, j);
    PartsRead(s, p, x, f, i, j, k);
  }

  /** Characters that end a width or precision. */
  predicate EndsCount(c: char) {
    !IsDigit(c, 10) && c != '*' && c != '.'
  }

  lemma EndsAfter(qualifier: char, kind: char, c: char)
    requires (qualifier == NUL || qualifier == 'l' || qualifier == 'L') && IsKind(kind)
    requires c == if qualifier == NUL then kind else qualifier
    ensures EndsCount(c)
  {
  }

  lemma CountsRead(s: string, p: nat, flags: string, width: Count, precision: Count, f: nat, i: nat, j: nat)
    requires f == p + 1 + |flags| && i == f + |CountText(width)| && j == i + |PrecisionText(precision)|
    requires Occurs(s, p + 1, flags) && Occurs(s, f, CountText(width)) && Occurs(s, i, PrecisionText(precision))
    requires forall m :: 0 <= m < |flags| ==> IsFlag(flags[m])
    requires !width.Bare? && (width.Fixed? ==> width.n >= 0) && (precision.Fixed? ==> precision.n >= 0)
    requires EndsCount(CharAt(s, j)) && CharAt(s, i) == (if precision.Absent? then CharAt(s, j) else '.')
    requires (width.Absent? ==> CharAt(s, f) == CharAt(s, i)) && !IsFlag(CharAt(s, f))
    ensures FlagsEnd(s, p + 1) == f && s[p + 1..f] == flags
    ensures CountAt(s, f) == (width, i) && PrecisionAt(s, i) == (precision, j)
  {
    FlagsRead(s, p + 1, flags);
    CountRead(s, f, width);
    PrecisionRead(s, i, precision);
  }

  lemma FlagsRead(s: string, p: nat, flags: string)
    requires Occurs(s, p, flags) && !IsFlag(CharAt(s, p + |flags|))
    requires forall i :: 0 <= i < |flags| ==> IsFlag(flags[i])
    ensures FlagsEnd(s, p) == p + |flags| && s[p..p + |flags|] == flags
  {
    assert forall m :: p <= m < p + |flags| ==> s[m] == flags[m - p];
    FlagsEndAt(s, p, p + |flags|);
    OccursSlice(s, p, flags);
  }

  lemma PartsRead(s: string, p: nat, x: Piece, f: nat, i: nat, j: nat, k: nat)
    requires x.Directive? && p < |s| && p < f <= i <= j <= k <= |s| && k == QualifierEnd(s, j)
    requires FlagsEnd(s, p + 1) == f && s[p + 1..f] == x.flags
    requires CountAt(s, f) == (x.width, i) && PrecisionAt(s, i) == (x.precision, j)
    requires x.qualifier == (if k > j then s[j] else NUL) && CharAt(s, k) == x.kind
    ensures DirectiveAt(s, p) == (x, if k < |s| then k + 1 else k)
  {
  }

  lemma PieceRead(s: string, p: nat, x: Piece)
    requires LegalPiece(x) && Occurs(s, p, PieceText(x))
    requires x.Directive? && x.kind == NUL ==> p + |PieceText(x)| == |s|
    ensures p < |s| && PieceAt(s, p) == (x, p + |PieceText(x)|)
  {
    if x.Directive? {
      DirectiveRead(s, p, x);
    } else {
      HeadOf(s, p, [x.c]);
    }
  }

  /** Parsing undoes writing: the text of a list of pieces is parsed to these pieces. */
  lemma {:induction false} ParseText(s: string, p: nat, f: Format)
    requires Legal(f) && Occurs(s, p, Text(f)) && p + |Text(f)| == |s|
    ensures Parse(s, p) == f
    decreases f
  {
    match f
    case End =>
    case Then(x, rest) =>
      LegalText(f);
      var q := TextStep(s, p, x, Text(f), PieceText(x), Text(rest));
      ParseText(s, q, rest);
      ParseStep(s, p, f, q);
  }

  /** The first piece of a text t, and where the rest b starts. */
  lemma TextStep(s: string, p: nat, x: Piece, t: string, a: string, b: string) returns (q: nat)
    requires LegalPiece(x) && a == PieceText(x) && t == a + b && Occurs(s, p, t) && p + |t| == |s|
    requires x.Directive? && x.kind == NUL ==> b == ""
    ensures p < |s| && PieceAt(s, p) == (x, q) && Occurs(s, q, b) && q + |b| == |s|
  {
    FirstRead(s, p, x, a, b);
    q := p + |a|;
  }

  lemma LegalText(f: Format)
    requires Legal(f) && f.Then?
    ensures LegalPiece(f.piece) && Legal(f.rest) && Text(f) == PieceText(f.piece) + Text(f.rest)
    ensures f.piece.Directive? && f.piece.kind == NUL ==> Text(f.rest) == ""
  {
  }

  lemma FirstRead(s: string, p: nat, x: Piece, a: string, b: string)
    requires LegalPiece(x) && a == PieceText(x) && Occurs(s, p, a + b) && p + |a + b| == |s|
    requires x.Directive? && x.kind == NUL ==> b == ""
    ensures p < |s| && PieceAt(s, p) == (x, p + |a|) && Occurs(s, p + |a|, b)
  {
    OccursParts(s, p, a, b);
    PieceRead(s, p, x);
  }

  lemma ParseStep(s: string, p: nat, f: Format, q: nat)
    requires p < |s| && q <= |s| && f.Then? && PieceAt(s, p) == (f.piece, q) && Parse(s, q) == f.rest
    ensures Parse(s, p) == f
  {
  }

  // ----- the function -----

  /** The loop over flags. */
  method SkipFlags(s: string, p: nat) returns (q: nat, flags: Flags)
    requires p <= |s|
    ensures q == FlagsEnd(s, p)
    ensures var t := s[p..q];
            flags == Flags('0' in t, false, '+' in t, ' ' in t, '-' in t, '#' in t, false)
  {
    q := p;
    flags := Flags(false, false, false, false, false, false, false);
    while q < |s| && IsFlag(s[q])
      invariant p <= q <= |s| && FlagsEnd(s, q) == FlagsEnd(s, p)
      invariant var t := s[p..q];
                flags == Flags('0' in t, false, '+' in t, ' ' in t, '-' in t, '#' in t, false)
    {
      assert s[p..q + 1] == s[p..q] + [s[q]];
      match s[q] {
        case '-' => flags := flags.(left := true);
        case '+' => flags := flags.(plus := true);
        case ' ' => flags := flags.(space := true);
        case '#' => flags := flags.(prefix := true);
        case _ => flags := flags.(zeropad := true);
      }
      q := q + 1;
    }
  }

  method SkipAtoi(s: string, p: nat) returns (n: int, q: nat)
    requires p <= |s|
    ensures q == DigitsEnd(s, p, 10) && n == Value(s[p..q], 10)
  {
    n, q := 0, p;
    assert s[p..p] == "";
    while q < |s| && '0' <= s[q] <= '9'
      invariant p <= q <= |s| && DigitsEnd(s, q, 10) == DigitsEnd(s, p, 10) && n == Value(s[p..q], 10)
    {
      ValueStep(s, p, q, 10);
      n := n * 10 + s[q] as int - '0' as int;
      q := q + 1;
    }
  }

  /** A number in the format, or taken from the arguments for a star, or -1. */
  method CountArg(s: string, p: nat, args: seq<Arg>) returns (n: int, star: bool, q: nat, rest: seq<Arg>)
    requires p <= |s| && Setting(CountAt(s, p).0, args).Some?
    ensures q == CountAt(s, p).1 && star == CountAt(s, p).0.Star?
    ensures Setting(CountAt(s, p).0, args) == Some((n, rest))
  {
    n, star, q, rest := -1, false, p, args;
    if p < |s| && '0' <= s[p] <= '9' {
      n, q := SkipAtoi(s, p);
    } else if p < |s| && s[p] == '*' {
      n, star, q, rest := args[0].v, true, p + 1, args[1..];
    }
  }

  /** Blanks before t, or behind it. */
  method Field(t: string, width: int, left: bool) returns (out: string)
    ensures out == Justified(t, width, left)
  {
    var count, pad := width - |t|, "";
    out := "";
    if !left {
      out, count := Pad(' ', count);
    }
    out := out + t;
    pad, count := Pad(' ', count);
    out := out + pad;
    assert left ==> "" + t == t;
    assert !left ==> pad == "";
  }

  method ConvertAddr(qualifier: char, f: Flags, width: int, addr: seq<int>) returns (t: string)
    requires AreBytes(addr) && |addr| >= if qualifier == 'l' then ETHER else INET
    ensures t == Justified(AddrShown(qualifier, addr, f.upper), width, f.left)
  {
    if qualifier == 'l' {
      t := EAddr(addr, f.upper);
    } else {
      t := IAddr(addr);
    }
    t := Field(t, width, f.left);
  }

  method Convert(kind: char, qualifier: char, f: Flags, width: int, precision: int, args: seq<Arg>)
    returns (t: string, rest: seq<Arg>)
    requires Converted(kind, qualifier, f, width, precision, args).Some?
    ensures Converted(kind, qualifier, f, width, precision, args) == Some((t, rest))
  {
    if kind == 'c' {
      t := Field([(Unsigned(args[0].v) % 0x100) as char], width, f.left);
      return t, args[1..];
    }
    if kind == 's' {
      t := Field(Shown(args[0].s, precision), width, f.left);
      return t, args[1..];
    }
    if kind in "aA" {
      t := ConvertAddr(qualifier, f, width, args[0].bytes);
      return t, args[1..];
    }
    if kind == 'p' {
      var w, g := width, f;
      if width == -1 {
        w, g := 8, f.(zeropad := true);
      }
      var n := Number(args[0].v, 16, w, precision, g);
      return n.value, args[1..];
    }
    if kind in "diuoxX" {
      var base := 10;
      if kind == 'o' {
        base := 8;
      } else if kind == 'x' || kind == 'X' {
        base := 16;
      }
      var n := Number(args[0].v, base, width, precision, f);
      return n.value, args[1..];
    }
    t := "";
    if kind != '%' {
      t := "%";
    }
    if kind != NUL {
      t := t + [kind];
    }
    rest := args;
    assert "" + [kind] == [kind] && "%" + [kind] == ['%', kind];
  }

  /** The field width, which turns the field to the left if it is a negative argument. */
  method TakeWidth(s: string, p: nat, left: bool, args: seq<Arg>) returns (w: int, turned: bool, q: nat, rest: seq<Arg>)
    requires p <= |s| && Setting(CountAt(s, p).0, args).Some?
    ensures q == CountAt(s, p).1
    ensures var c, got := CountAt(s, p).0, Setting(CountAt(s, p).0, args).value;
            var flip := c.Star? && got.0 < 0;
            rest == got.1 && turned == (left || flip) && w == if flip then -got.0 else got.0
  {
    var star;
    w, star, q, rest := CountArg(s, p, args);
    turned := left;
    if star && w < 0 {
      w, turned := -w, true;
    }
  }

  /** The precision, where a negative argument counts as 0. */
  method TakePrecision(s: string, p: nat, args: seq<Arg>) returns (pr: int, q: nat, rest: seq<Arg>)
    requires p <= |s| && Setting(PrecisionAt(s, p).0, args).Some?
    ensures q == PrecisionAt(s, p).1
    ensures var c, got := PrecisionAt(s, p).0, Setting(PrecisionAt(s, p).0, args).value;
            rest == got.1 && pr == if !c.Absent? && got.0 < 0 then 0 else got.0
  {
    pr, q, rest := -1, p, args;
    if p < |s| && s[p] == '.' {
      var star;
      pr, star, q, rest := CountArg(s, p + 1, args);
      if pr < 0 {
        pr := 0;
      }
    }
  }

  /** Flags, width and precision of the directive at p; its kind comes later. */
  method Configure(s: string, p: nat, args: seq<Arg>, ghost kind: char)
    returns (flags: Flags, w: int, pr: int, k: nat, rest: seq<Arg>)
    requires p < |s|
    requires var f := FlagsEnd(s, p + 1); var c := CountAt(s, f); var d := PrecisionAt(s, c.1);
             SettingsOf(s[p + 1..f], c.0, d.0, kind, args).Some?
    ensures var f := FlagsEnd(s, p + 1); var c := CountAt(s, f); var d := PrecisionAt(s, c.1);
            && k == d.1
            && SettingsOf(s[p + 1..f], c.0, d.0, kind, args) ==
               Some(Settings(flags.(sign := kind == 'd' || kind == 'i', upper := IsUpper(kind)), w, pr, rest))
  {
    var i, fs := SkipFlags(s, p + 1);
    var turned, j;
    w, turned, j, rest := TakeWidth(s, i, fs.left, args);
    pr, k, rest := TakePrecision(s, j, rest);
    flags := fs.(left := turned);
  }

  /** A directive, from its % sign on. */
  method Directed(s: string, p: nat, args: seq<Arg>) returns (t: string, q: nat, rest: seq<Arg>)
    requires p < |s| && s[p] == '%' && PieceOut(DirectiveAt(s, p).0, args).Some?
    ensures q == DirectiveAt(s, p).1 && PieceOut(DirectiveAt(s, p).0, args) == Some((t, rest))
  {
    var flags, w, pr, k, more := Configure(s, p, args, DirectiveAt(s, p).0.kind);
    var qualifier := NUL;
    if k < |s| && (s[k] == 'l' || s[k] == 'L') {
      qualifier := s[k];
      k := k + 1;
    }
    var kind := CharAt(s, k);
    t, rest := Convert(kind, qualifier, flags.(sign := kind == 'd' || kind == 'i', upper := IsUpper(kind)), w, pr, more);
    q := if k < |s| then k + 1 else k;
  }

  /** The text that vsprintf writes, for arguments that are of the kinds its format asks for. */
  method VSPrintf(fmt: string, args: seq<Arg>) returns (out: string)
    requires NUL !in fmt && Printed(Parse(fmt, 0), args, "").Some?
    ensures Printed(Parse(fmt, 0), args, "") == Some(out)
  {
    out := "";
    var p, rest := 0, args;
    while p < |fmt|
      invariant p <= |fmt| && Printed(Parse(fmt, p), rest, out) == Printed(Parse(fmt, 0), args, "")
      decreases |fmt| - p
    {
      var t;
      if fmt[p] != '%' {
        t := [fmt[p]];
        p := p + 1;
      } else {
        t, p, rest := Directed(fmt, p, rest);
      }
      out := out + t;
    }
  }

  /** A format put together from pieces prints what its pieces print. */
  lemma PrintsPieces(f: Format, args: seq<Arg>)
    requires Legal(f)
    ensures Printed(Parse(Text(f), 0), args, "") == Printed(f, args, "")
  {
    ParseText(Text(f), 0, f);
  }
}
