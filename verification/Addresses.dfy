/** Network addresses as vsprintf prints them: six bytes in hexadecimal, or four in decimal. */
module Addresses {
  import opened Divisibility
  import opened Fields
  import opened NumToStr
  import opened StrToNum

  const ETHER := 6
  const INET := 4

  predicate AreBytes(bs: seq<int>) {
    forall i :: 0 <= i < |bs| ==> 0 <= bs[i] < 0x100
  }

  function Separator(ether: bool): char {
    if ether then ':' else '.'
  }

  /** Two hexadecimal digits, or the decimal number without leading zeros. */
  function Octet(b: int, ether: bool, upper: bool): string
    requires 0 <= b < 0x100
  {
    if ether then [DigitChar(b / 16, upper), DigitChar(b % 16, upper)] else Digits(b, 10, false)
  }

  function Address(bs: seq<int>, ether: bool, upper: bool): string
    requires AreBytes(bs)
  {
    if bs == [] then ""
    else
      var t := Octet(bs[|bs| - 1], ether, upper);
      if |bs| == 1 then t else Address(bs[..|bs| - 1], ether, upper) + [Separator(ether)] + t
  }

  lemma AddressNext(bs: seq<int>, i: nat, ether: bool, upper: bool)
    requires AreBytes(bs) && i < |bs|
    ensures Address(bs[..i + 1], ether, upper) ==
            Address(bs[..i], ether, upper) + (if i == 0 then "" else [Separator(ether)]) + Octet(bs[i], ether, upper)
  {
    assert bs[..i + 1][..i] == bs[..i];
  }

  // ----- reading an address -----

  lemma DigitNoSeparator(d: int, upper: bool)
    requires 0 <= d < 36
    ensures DigitChar(d, upper) !in ":" && DigitChar(d, upper) !in "."
  {
  }

  lemma {:induction false} DigitsNoSeparator(v: nat)
    ensures Free(Digits(v, 10, false), ".")
  {
    if v < 10 {
      DigitNoSeparator(v, false);
    } else {
      DigitsNoSeparator(Quotient(v, 10));
      DigitNoSeparator(Remainder(v, 10), false);
    }
  }

  lemma OctetRead(b: int, ether: bool, upper: bool)
    requires 0 <= b < 0x100
    ensures Free(Octet(b, ether, upper), [Separator(ether)])
    ensures Value(Octet(b, ether, upper), if ether then 16 else 10) == b
  {
    if ether {
      var hi, lo := DigitChar(b / 16, upper), DigitChar(b % 16, upper);
      DigitNoSeparator(b / 16, upper);
      DigitNoSeparator(b % 16, upper);
      DigitCharValue(b / 16, upper);
      DigitCharValue(b % 16, upper);
      ValueAppend("", hi, 16);
      ValueAppend([hi], lo, 16);
      assert "" + [hi] == [hi] && [hi] + [lo] == [hi, lo];
      assert Value("", 16) == 0;
    } else {
      DigitsNoSeparator(b);
      DigitsValue(b, 10, false);
    }
  }

  lemma LastField(bs: seq<int>, ether: bool, upper: bool)
    requires AreBytes(bs) && bs != []
    ensures var init, t, d := bs[..|bs| - 1], Octet(bs[|bs| - 1], ether, upper), [Separator(ether)];
            Split(Address(bs, ether, upper), d) == (if init == [] then [] else Split(Address(init, ether, upper), d)) + [t]
  {
    var init, t, d := bs[..|bs| - 1], Octet(bs[|bs| - 1], ether, upper), [Separator(ether)];
    OctetRead(bs[|bs| - 1], ether, upper);
    SplitFree(t, d);
    SplitAt(Address(init, ether, upper), Separator(ether), t, d);
  }

  /** A field of an address is the byte b: in two hexadecimal digits, of one case, or in decimal
      digits without zeros in front. */
  predicate IsField(t: string, b: int, ether: bool, upper: bool) {
    && Value(t, if ether then 16 else 10) == b
    && (if ether then |t| == 2 else |t| >= 1 && (|t| > 1 ==> t[0] != '0'))
    && forall i :: 0 <= i < |t| ==>
        IsDigit(t[i], if ether then 16 else 10) && !(if upper then 'a' <= t[i] <= 'z' else 'A' <= t[i] <= 'Z')
  }

  lemma OctetIsField(b: int, ether: bool, upper: bool)
    requires 0 <= b < 0x100 && (!ether ==> !upper)
    ensures IsField(Octet(b, ether, upper), b, ether, upper)
  {
    OctetRead(b, ether, upper);
    if ether {
      DigitCharValue(b / 16, upper);
      DigitCharValue(b % 16, upper);
    } else {
      DigitsValue(b, 10, false);
      Decimal(b);
    }
  }

  /** Taken apart at its colons or dots, an address gives its bytes back. */
  lemma {:induction false} AddressRead(bs: seq<int>, ether: bool, upper: bool)
    requires AreBytes(bs) && bs != [] && (!ether ==> !upper)
    ensures var fields := Split(Address(bs, ether, upper), if ether then ":" else ".");
            |fields| == |bs| && forall i :: 0 <= i < |bs| ==> IsField(fields[i], bs[i], ether, upper)
  {
    var init := bs[..|bs| - 1];
    assert [Separator(ether)] == if ether then ":" else ".";
    OctetIsField(bs[|bs| - 1], ether, upper);
    LastField(bs, ether, upper);
    if init != [] {
      AddressRead(init, ether, upper);
    }
    OneMoreField(if init == [] then [] else Split(Address(init, ether, upper), [Separator(ether)]),
                 Octet(bs[|bs| - 1], ether, upper), bs, ether, upper);
  }

  lemma OneMoreField(fields: seq<string>, t: string, bs: seq<int>, ether: bool, upper: bool)
    requires bs != [] && |fields| == |bs| - 1 && IsField(t, bs[|bs| - 1], ether, upper)
    requires forall i :: 0 <= i < |fields| ==> IsField(fields[i], bs[..|bs| - 1][i], ether, upper)
    ensures forall i :: 0 <= i < |bs| ==> IsField((fields + [t])[i], bs[i], ether, upper)
  {
  }

  // ----- writing an address -----

  lemma UpToTwo(n: nat)
    requires n < 100
    ensures Digits(n, 10, false) ==
            if n < 10 then [DigitChar(n, false)] else [DigitChar(n / 10, false), DigitChar(n % 10, false)]
  {
    QuotientIsDiv(n, 10);
    if n >= 10 {
      assert Digits(n / 10, 10, false) == [DigitChar(n / 10, false)];
    }
  }

  lemma Decimal(n: nat)
    requires n < 0x100
    ensures n < 10 ==> Digits(n, 10, false) == [DigitChar(n, false)]
    ensures 10 <= n < 100 ==> Digits(n, 10, false) == [DigitChar(n / 10, false), DigitChar(n % 10, false)]
    ensures 100 <= n ==>
              Digits(n, 10, false) ==
              [DigitChar(n / 100, false), DigitChar(n % 100 / 10, false), DigitChar(n % 100 % 10, false)]
  {
    if n < 100 {
      UpToTwo(n);
    } else {
      QuotientIsDiv(n, 10);
      UpToTwo(n / 10);
      assert n / 10 / 10 == n / 100 && n / 10 % 10 == n % 100 / 10 && n % 10 == n % 100 % 10;
    }
  }

  /** Appends c to the first at characters, unless it is for the first octet. */
  method PutSeparator(tmp: array<char>, at: nat, i: nat, c: char) returns (len: nat)
    requires at < tmp.Length
    modifies tmp
    ensures at <= len <= at + 1 && tmp[..len] == old(tmp[..at]) + (if i == 0 then "" else [c])
  {
    len := at;
    if i != 0 {
      tmp[len] := c;
      len := len + 1;
    }
  }

  method HexOctet(tmp: array<char>, at: nat, b: int, upper: bool) returns (len: nat)
    requires 0 <= b < 0x100 && at + 2 <= tmp.Length
    modifies tmp
    ensures len == at + 2 && tmp[..len] == old(tmp[..at]) + Octet(b, true, upper)
  {
    tmp[at] := DigitChar(b / 16, upper);
    tmp[at + 1] := DigitChar(b % 16, upper);
    len := at + 2;
  }

  method DecOctet(tmp: array<char>, at: nat, b: int) returns (len: nat)
    requires 0 <= b < 0x100 && at + 3 <= tmp.Length
    modifies tmp
    ensures at < len <= at + 3 && tmp[..len] == old(tmp[..at]) + Octet(b, false, false)
  {
    var n := b;
    Decimal(b);
    len := at;
    if n >= 100 {
      tmp[len] := DigitChar(n / 100, false);
      n := n % 100;
      tmp[len + 1] := DigitChar(n / 10, false);
      n := n % 10;
      len := len + 2;
    } else if n >= 10 {
      tmp[len] := DigitChar(n / 10, false);
      n := n % 10;
      len := len + 1;
    }
    tmp[len] := DigitChar(n, false);
    len := len + 1;
  }

  method EAddr(addr: seq<int>, upper: bool) returns (t: string)
    requires |addr| >= ETHER && AreBytes(addr)
    ensures t == Address(addr[..ETHER], true, upper)
  {
    var tmp := new char[24](_ => ' ');
    var len := 0;
    for i := 0 to ETHER
      invariant len <= 3 * i && tmp[..len] == Address(addr[..i], true, upper)
    {
      AddressNext(addr, i, true, upper);
      len := PutSeparator(tmp, len, i, ':');
      len := HexOctet(tmp, len, addr[i], upper);
    }
    t := tmp[..len];
  }

  method IAddr(addr: seq<int>) returns (t: string)
    requires |addr| >= INET && AreBytes(addr)
    ensures t == Address(addr[..INET], false, false)
  {
    var tmp := new char[24](_ => ' ');
    var len := 0;
    for i := 0 to INET
      invariant len <= 4 * i && tmp[..len] == Address(addr[..i], false, false)
    {
      AddressNext(addr, i, false, false);
      len := PutSeparator(tmp, len, i, '.');
      len := DecOctet(tmp, len, addr[i]);
    }
    t := tmp[..len];
  }
}
