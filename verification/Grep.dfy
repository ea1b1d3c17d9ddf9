/** The streaming loop of grep: lines are picked out of a buffer of 1024 bytes that is filled
    by reads of any size. */
module Grep {
  import opened Options
  import opened Regex
  import opened Strings

  const BUF_SIZE := 1024

  // ----- what grep writes -----

  /** strchr: the first newline, unless a NUL comes first. */
  function FindNewline(s: string): (r: Option<nat>)
    ensures r.Some? ==> r.value < |s|
  {
    if s == "" || s[0] == '\0' then None
    else if s[0] == '\n' then Some(0)
    else
      var r := FindNewline(s[1..]);
      if r.None? then None else Some(r.value + 1)
  }

  lemma {:induction false} FindNewlineMeaning(s: string)
    ensures var r := FindNewline(s);
            if r.Some? then s[r.value] == '\n' && forall i :: 0 <= i < r.value ==> s[i] != '\n' && s[i] != '\0'
            else forall k :: 0 <= k < |s| && s[k] == '\n' ==> exists i :: 0 <= i < k && s[i] == '\0'
  {
    if s != "" && s[0] != '\0' && s[0] != '\n' {
      FindNewlineMeaning(s[1..]);
      assert forall i :: 0 < i < |s| ==> s[i] == s[1..][i - 1];
      if FindNewline(s).None? {
        forall k | 0 <= k < |s| && s[k] == '\n'
          ensures exists i :: 0 <= i < k && s[i] == '\0'
        {
          var i :| 0 <= i < k - 1 && s[1..][i] == '\0';
          assert s[i + 1] == '\0';
        }
      }
    }
  }

  /** Which lines are wanted; grep wants those that match its pattern. */
  type Selection = string -> bool

  ghost function Matching(pattern: string): Selection {
    (line: string) => Matches(pattern, line)
  }

  /** The first newline, whatever is in front of it. */
  function LineEnd(s: string): (r: Option<nat>)
    ensures r.Some? ==> r.value < |s|
  {
    if s == "" then None
    else if s[0] == '\n' then Some(0)
    else
      var r := LineEnd(s[1..]);
      if r.None? then None else Some(r.value + 1)
  }

  /** The wanted newline-terminated lines of a text, in order, and nothing else. */
  ghost function Wanted(want: Selection, data: string): string {
    var q := LineEnd(data);
    if q.None? then ""
    else Picked(want, data, q.value) + Wanted(want, data[q.value + 1..])
  }

  /** The part of the text before the first line that contains a NUL or, with its newline, does
      not fit the buffer beside one. */
  function Fitting(data: string): (n: nat)
    ensures n <= |data|
  {
    var q := FindNewline(data);
    if q.None? || q.value + 1 >= BUF_SIZE then 0 else q.value + 1 + Fitting(data[q.value + 1..])
  }

  ghost function Picked(want: Selection, line: string, k: nat): string
    requires k < |line|
  {
    if want(line[..k]) then line[..k + 1] else ""
  }

  /** What the loop has written in the end, given what it has written so far and the text to
      come: it goes on line by line and ends before the first line that does not fit. */
  ghost function Written(want: Selection, data: string, out: string): string
    decreases |data|
  {
    var q := FindNewline(data);
    if q.None? || q.value + 1 >= BUF_SIZE then out
    else Written(want, data[q.value + 1..], out + Picked(want, data, q.value))
  }

  // ----- the input -----

  /** A byte stream that answers reads in pieces of its own choosing. */
  class Stream {
    var rest: string
    var sizes: seq<nat>

    constructor (data: string, sizes: seq<nat>)
      ensures rest == data
    {
      rest, this.sizes := data, sizes;
    }

    /** Delivers the next bytes, at most max and at least one unless there are none. */
    method Read(max: nat) returns (chunk: string)
      modifies this
      ensures old(rest) == chunk + rest && |chunk| <= max
      ensures chunk == "" <==> max == 0 || old(rest) == ""
    {
      var n := if sizes == [] || sizes[0] == 0 then 1 else sizes[0];
      if sizes != [] {
        sizes := sizes[1..];
      }
      if n > max {
        n := max;
      }
      if n > |rest| {
        n := |rest|;
      }
      chunk, rest := rest[..n], rest[n..];
    }
  }

  // ----- one line at a time -----

  lemma FindNewlineIn(s: string, t: string)
    ensures FindNewline(s).Some? ==> FindNewline(s + t) == FindNewline(s)
    ensures FindNewline(s).None? && FindNewline(s + t).Some? ==> FindNewline(s + t).value >= |s|
  {
    if s == "" {
      assert s + t == t;
    } else {
      assert (s + t)[1..] == s[1..] + t;
      FindNewlineIn(s[1..], t);
    }
  }

  // ----- the loop -----

  /** From p on the buffer holds the C string s. */
  ghost predicate Holds(buf: array<char>, p: nat, s: string)
    reads buf
  {
    && p + |s| < buf.Length && buf[p + |s|] == '\0'
    && forall i :: 0 <= i < |s| ==> buf[p + i] == s[i]
  }

  /** strchr for a newline in the string at p. */
  method StrChr(buf: array<char>, p: nat, ghost s: string) returns (q: Option<nat>)
    requires Holds(buf, p, s)
    ensures q == var r := FindNewline(s); if r.None? then None else Some(p + r.value)
    ensures q.Some? ==> p <= q.value < p + |s| && s[q.value - p] == '\n'
  {
    var i := 0;
    while buf[p + i] != '\0' && buf[p + i] != '\n'
      invariant 0 <= i <= |s| && forall j :: 0 <= j < i ==> s[j] != '\0' && s[j] != '\n'
      decreases |s| - i
    {
      i := i + 1;
    }
    FindNewlineAt(s, i);
    if buf[p + i] == '\n' {
      return Some(p + i);
    }
    return None;
  }

  lemma {:induction false} FindNewlineAt(s: string, k: nat)
    requires k <= |s| && forall i :: 0 <= i < k ==> s[i] != '\n' && s[i] != '\0'
    ensures k < |s| && s[k] == '\n' ==> FindNewline(s) == Some(k)
    ensures k == |s| || s[k] == '\0' ==> FindNewline(s) == None
  {
    if k > 0 {
      FindNewlineAt(s[1..], k - 1);
    }
  }

  lemma WrittenStep(want: Selection, data: string, k: nat, next: string, out: string, piece: string)
    requires FindNewline(data) == Some(k) && k + 1 < BUF_SIZE && next == data[k + 1..] && piece == Picked(want, data, k)
    ensures Written(want, data, out) == Written(want, next, out + piece)
  {
  }

  /** The first line of a text, whatever follows. */
  lemma FirstLine(want: Selection, s: string, rest: string, k: nat, next: string)
    requires k < |s| && next == s[k + 1..]
    ensures (s + rest)[k + 1..] == next + rest && Picked(want, s + rest, k) == Picked(want, s, k)
  {
    assert (s + rest)[..k] == s[..k] && (s + rest)[..k + 1] == s[..k + 1];
  }

  lemma NextLine(want: Selection, s: string, k: nat, next: string, rest: string, out: string, piece: string)
    requires |s| < BUF_SIZE && FindNewline(s) == Some(k) && next == s[k + 1..] && piece == Picked(want, s, k)
    ensures Written(want, s + rest, out) == Written(want, next + rest, out + piece)
  {
    var data, tail := s + rest, next + rest;
    FirstLine(want, s, rest, k, next);
    FindNewlineIn(s, rest);
    WrittenStep(want, data, k, tail, out, piece);
  }

  method MatchLine(pattern: string, line: string) returns (r: bool)
    ensures r == Matching(pattern)(line)
  {
    r := Match(pattern, line);
  }

  /** The line from p to the newline at q: it is ended there for the matcher, and the newline
      is put back if the line is to be written. */
  method WriteLine(pattern: string, buf: array<char>, p: nat, q: nat, ghost s: string, ghost next: string)
    returns (piece: string)
    requires Holds(buf, p, s) && p <= q < p + |s| && s[q - p] == '\n' && next == s[q - p + 1..]
    modifies buf
    ensures piece == Picked(Matching(pattern), s, q - p)
    ensures Holds(buf, q + 1, next)
  {
    buf[q] := '\0';
    assert buf[p..q] == s[..q - p];
    var matched := MatchLine(pattern, buf[p..q]);
    piece := "";
    if matched {
      buf[q] := '\n';
      piece := buf[p..q + 1];
      assert piece == s[..q - p + 1];
    }
  }

  method TakeLine(pattern: string, buf: array<char>, p: nat, q: nat, before: string, ghost s: string, ghost rest: string,
                  ghost left: string)
    returns (out: string)
    requires |s| < BUF_SIZE && Holds(buf, p, s) && p <= q < p + |s| && s[q - p] == '\n'
    requires FindNewline(s) == Some(q - p) && left == s[q - p + 1..]
    modifies buf
    ensures Holds(buf, q + 1, left)
    ensures Written(Matching(pattern), left + rest, out) == Written(Matching(pattern), s + rest, before)
  {
    var piece := WriteLine(pattern, buf, p, q, s, left);
    NextLine(Matching(pattern), s, q - p, left, rest, before, piece);
    out := before + piece;
  }

  /** One round of the loop over lines: the string s at p loses its first line, if it has one. */
  method NextInBuffer(pattern: string, buf: array<char>, p: nat, before: string, ghost s: string, ghost rest: string)
    returns (more: bool, out: string, p': nat, ghost left: string)
    requires |s| < BUF_SIZE && Holds(buf, p, s)
    modifies buf
    ensures Holds(buf, p', left) && p' + |left| == p + |s| && more == FindNewline(s).Some?
    ensures if more then |left| < |s| else left == s
    ensures Written(Matching(pattern), left + rest, out) == Written(Matching(pattern), s + rest, before)
  {
    var q := StrChr(buf, p, s);
    more, out, p', left := q.Some?, before, p, s;
    if more {
      left := s[q.value - p + 1..];
      out := TakeLine(pattern, buf, p, q.value, before, s, rest, left);
      p' := q.value + 1;
    }
  }

  /** Handles the complete lines of the string s in the buffer; what is left starts at p. */
  method WriteLines(pattern: string, buf: array<char>, before: string, ghost want: Selection, ghost s: string,
                    ghost rest: string)
    returns (out: string, p: nat, ghost left: string)
    requires want == Matching(pattern) && buf.Length == BUF_SIZE && Holds(buf, 0, s)
    modifies buf
    ensures Holds(buf, p, left) && p + |left| == |s| && FindNewline(left).None?
    ensures Written(want, left + rest, out) == Written(want, s + rest, before)
  {
    var more := true;
    out, p, left := before, 0, s;
    while more
      invariant Holds(buf, p, left) && p + |left| == |s| && (!more ==> FindNewline(left).None?)
      invariant Written(want, left + rest, out) == Written(want, s + rest, before)
      decreases more, |left|
    {
      more, out, p, left := NextInBuffer(pattern, buf, p, out, left, rest);
    }
  }

  /** The bytes of a read go behind what the buffer holds, and a NUL behind them. */
  method Fill(buf: array<char>, m: nat, chunk: string, ghost held: string)
    requires m == |held| && m + |chunk| < buf.Length && forall i :: 0 <= i < m ==> buf[i] == held[i]
    modifies buf
    ensures Holds(buf, 0, held + chunk)
  {
    forall i | 0 <= i < |chunk| {
      buf[m + i] := chunk[i];
    }
    buf[m + |chunk|] := '\0';
  }

  /** memmove of m bytes from p to the start of the buffer. */
  method MoveDown(buf: array<char>, p: nat, m: nat)
    requires p + m <= buf.Length
    modifies buf
    ensures forall i :: 0 <= i < m ==> buf[i] == old(buf[p + i])
  {
    forall i | 0 <= i < m {
      buf[i] := buf[p + i];
    }
  }

  /** The whole loop: whatever the sizes of the reads, the output is the same. */
  method Grep(pattern: string, fd: Stream) returns (out: string)
    modifies fd
    ensures out == Written(Matching(pattern), old(fd.rest), "")
  {
    var buf := new char[BUF_SIZE];
    var m := 0;
    out := "";
    ghost var want, held, data := Matching(pattern), "", fd.rest;
    assert held + data == data;
    while true
      invariant m == |held| < BUF_SIZE && FindNewline(held).None? && forall i :: 0 <= i < m ==> buf[i] == held[i]
      invariant Written(want, held + fd.rest, out) == Written(want, data, "")
      decreases |fd.rest|
    {
      ghost var before := fd.rest;
      var chunk := fd.Read(BUF_SIZE - m - 1);
      Glue(held, chunk, fd.rest);
      if chunk == "" {
        NoMore(want, held, fd.rest, out);
        return;
      }
      Fill(buf, m, chunk, held);
      m := m + |chunk|;
      var written, p, left := WriteLines(pattern, buf, out, want, held + chunk, fd.rest);
      out, held, m := written, left, m - p;
      MoveDown(buf, p, m);
    }
  }

  lemma Glue(a: string, b: string, c: string)
    ensures a + (b + c) == (a + b) + c && (b == "" ==> b + c == c)
  {
  }

  /** The loop ends with the input, or with a buffer full of one unfinished line. */
  lemma NoMore(want: Selection, held: string, rest: string, out: string)
    requires FindNewline(held).None? && (rest == "" || |held| == BUF_SIZE - 1)
    ensures Written(want, held + rest, out) == out
  {
    FindNewlineIn(held, rest);
    if rest == "" {
      assert held + rest == held;
    }
  }

  // ----- when nothing is left out -----

  /** Where strchr finds a newline, it is the end of the line. */
  lemma {:induction false} FoundIsLineEnd(s: string)
    ensures FindNewline(s).Some? ==> LineEnd(s) == FindNewline(s)
  {
    if s != "" {
      FoundIsLineEnd(s[1..]);
    }
  }

  lemma CutMoves(data: string, q: nat)
    requires FindNewline(data) == Some(q) && q + 1 < BUF_SIZE
    ensures var tail := data[q + 1..]; data[Fitting(data)..] == tail[Fitting(tail)..]
  {
  }

  /** The output, and what is wanted behind the cut, are together all that is wanted. */
  lemma {:induction false} OutputBeforeCut(want: Selection, data: string, out: string)
    ensures Written(want, data, out) + Wanted(want, data[Fitting(data)..]) == out + Wanted(want, data)
    decreases |data|
  {
    var q := FindNewline(data);
    if q.Some? && q.value + 1 < BUF_SIZE {
      var tail, piece := data[q.value + 1..], Picked(want, data, q.value);
      OutputBeforeCut(want, tail, out + piece);
      CutStep(want, data, out, q.value, tail, piece);
    } else {
      assert data[Fitting(data)..] == data;
    }
  }

  lemma CutStep(want: Selection, data: string, out: string, q: nat, tail: string, piece: string)
    requires FindNewline(data) == Some(q) && q + 1 < BUF_SIZE && tail == data[q + 1..] && piece == Picked(want, data, q)
    requires Written(want, tail, out + piece) + Wanted(want, tail[Fitting(tail)..]) == out + piece + Wanted(want, tail)
    ensures Written(want, data, out) + Wanted(want, data[Fitting(data)..]) == out + Wanted(want, data)
  {
    FoundIsLineEnd(data);
    CutMoves(data, q);
    Glue(out, piece, Wanted(want, tail));
    WantedNext(want, data, q, tail, piece);
    WrittenStep(want, data, q, tail, out, piece);
  }

  lemma WantedNext(want: Selection, data: string, q: nat, tail: string, piece: string)
    requires LineEnd(data) == Some(q) && tail == data[q + 1..] && piece == Picked(want, data, q)
    ensures Wanted(want, data) == piece + Wanted(want, tail)
  {
  }

  /** It is all that is wanted if and only if no line behind the cut is wanted: for every text,
      with lines of any length and with NULs. */
  lemma CompleteExactlyIf(want: Selection, data: string)
    ensures Written(want, data, "") == Wanted(want, data) <==> Wanted(want, data[Fitting(data)..]) == ""
  {
    OutputBeforeCut(want, data, "");
    Cancel(Written(want, data, ""), Wanted(want, data[Fitting(data)..]), Wanted(want, data));
  }

  lemma Cancel(w: string, cut: string, all: string)
    requires w + cut == "" + all
    ensures w == all <==> cut == ""
  {
    assert |w| + |cut| == |all|;
    if cut == "" {
      assert w + cut == w && "" + all == all;
    }
  }

  /** Lines judged as C strings, up to a NUL if there is one. */
  ghost function AsCStrings(want: Selection): Selection {
    (line: string) => want(UpToNul(line))
  }

  lemma {:induction false} NoNul(s: string)
    requires '\0' !in s
    ensures UpToNul(s) == s
  {
    if s != "" {
      NoNul(s[1..]);
    }
  }

  /** The output does not depend on how lines with a NUL in them are judged. */
  lemma {:induction false} EitherJudgement(want: Selection, data: string, out: string)
    ensures Written(AsCStrings(want), data, out) == Written(want, data, out)
    decreases |data|
  {
    var q := FindNewline(data);
    if q.Some? && q.value + 1 < BUF_SIZE {
      FindNewlineMeaning(data);
      NoNul(data[..q.value]);
      EitherJudgement(want, data[q.value + 1..], out + Picked(want, data, q.value));
    }
  }

  /** Every newline-terminated line fits the buffer and contains no NUL. */
  ghost predicate LinesFit(data: string) {
    '\n' in data ==>
      var q := FindNewline(data);
      q.Some? && q.value + 1 < BUF_SIZE && LinesFit(data[q.value + 1..])
  }

  /** For such texts the output is exactly the wanted lines, in order and byte for byte. */
  lemma NothingLeftOut(want: Selection, data: string)
    requires LinesFit(data)
    ensures Written(want, data, "") == Wanted(want, data)
  {
    CompleteExactlyIf(want, data);
    FitsToTheEnd(data);
    NoLine(data[Fitting(data)..]);
  }

  lemma {:induction false} FitsToTheEnd(data: string)
    requires LinesFit(data)
    ensures '\n' !in data[Fitting(data)..]
  {
    if '\n' in data {
      var q := FindNewline(data).value;
      FitsToTheEnd(data[q + 1..]);
      CutMoves(data, q);
    } else {
      FindNewlineMeaning(data);
      assert data[Fitting(data)..] == data;
    }
  }

  lemma {:induction false} NoLine(s: string)
    requires '\n' !in s
    ensures LineEnd(s) == None
  {
    if s != "" {
      NoLine(s[1..]);
    }
  }

  // ----- the wanted text, line by line -----

  function Lines(ls: seq<string>): string {
    if ls == [] then "" else ls[0] + "\n" + Lines(ls[1..])
  }

  ghost function Chosen(want: Selection, ls: seq<string>): seq<string> {
    if ls == [] then [] else (if want(ls[0]) then [ls[0]] else []) + Chosen(want, ls[1..])
  }

  lemma WantedFirst(want: Selection, line: string, rest: string)
    requires '\n' !in line
    ensures Wanted(want, line + "\n" + rest) == (if want(line) then line + "\n" else "") + Wanted(want, rest)
  {
    var data, n := line + "\n" + rest, |line|;
    assert data[n] == '\n' && data[..n] == line && data[..n + 1] == line + "\n" && data[n + 1..] == rest;
    LineEndAt(data, n);
  }

  /** Of a text made of lines, and something behind the last newline, exactly the wanted lines
      make up the wanted text, in order. */
  lemma {:induction false} WantedLines(want: Selection, ls: seq<string>, last: string)
    requires '\n' !in last && forall i :: 0 <= i < |ls| ==> '\n' !in ls[i]
    ensures Wanted(want, Lines(ls) + last) == Lines(Chosen(want, ls))
  {
    if ls == [] {
      NoLine(last);
      assert "" + last == last;
    } else {
      var rest := Lines(ls[1..]) + last;
      assert Lines(ls) + last == ls[0] + "\n" + rest;
      WantedFirst(want, ls[0], rest);
      WantedLines(want, ls[1..], last);
      if want(ls[0]) {
        assert ([ls[0]] + Chosen(want, ls[1..]))[1..] == Chosen(want, ls[1..]);
      } else {
        assert [] + Chosen(want, ls[1..]) == Chosen(want, ls[1..]);
        assert "" + Wanted(want, rest) == Wanted(want, rest);
      }
    }
  }

  // ----- two texts that lose a line -----

  lemma {:induction false} LineEndAt(s: string, k: nat)
    requires k < |s| && s[k] == '\n' && '\n' !in s[..k]
    ensures LineEnd(s) == Some(k)
  {
    if k > 0 {
      assert s[0] in s[..k];
      assert s[1..][..k - 1] == s[..k][1..];
      LineEndAt(s[1..], k - 1);
    }
  }

  /** A wanted line behind an unwanted one is lost if that one does not fit, or has a NUL. */
  lemma LostBehind(want: Selection, line: string, next: string)
    requires '\n' !in line && '\n' !in next && !want(line) && want(next)
    requires |line| + 1 >= BUF_SIZE || '\0' in line
    ensures var data := line + "\n" + (next + "\n");
            Wanted(want, data) == next + "\n" && Written(want, data, "") == ""
  {
    var rest := next + "\n";
    var data := line + "\n" + rest;
    var n := |line|;
    assert data[n] == '\n' && data[..n] == line && data[n + 1..] == rest;
    LineEndAt(data, n);
    assert rest[..|next|] == next && rest[..|next| + 1] == rest && rest[|next| + 1..] == "";
    LineEndAt(rest, |next|);
    assert Wanted(want, rest) == rest + "";
    FindNewlineMeaning(data);
    FoundIsLineEnd(data);
  }

  lemma FooMatches(text: string)
    ensures Matching("foo")("foo")
    ensures 'f' !in text ==> !Matching("foo")(text)
  {
    HereOne("foo", "foo");
    HereOne("oo", "oo");
    HereOne("o", "o");
    HereEmpty("");
    assert "foo"[1..] == "oo" && "oo"[1..] == "o" && "o"[1..] == "";
    assert "foo"[0..] == "foo";
    forall i | 0 <= i <= |text| && 'f' !in text
      ensures !Here("foo", text[i..])
    {
      HereOne("foo", text[i..]);
    }
  }

  /** grep foo loses the line foo behind a line with a NUL, and behind one of 1024 characters. */
  lemma LostLines()
    ensures var data := "a\0" + "\n" + ("foo" + "\n");
            Wanted(Matching("foo"), data) == "foo\n" && Written(Matching("foo"), data, "") == ""
    ensures var data := seq(1024, _ => 'a') + "\n" + ("foo" + "\n");
            Wanted(Matching("foo"), data) == "foo\n" && Written(Matching("foo"), data, "") == ""
  {
    var long: string := seq(1024, _ => 'a');
    FooMatches("a\0");
    FooMatches(long);
    LostBehind(Matching("foo"), "a\0", "foo");
    LostBehind(Matching("foo"), long, "foo");
  }
}
