/** The tokens of a command line, as positions in its text. */
module ShellLexer {
  import opened ShellGrammar
  import opened Strings

  /** A word of the text, from start up to end. */
  datatype Span = Span(start: nat, end: nat)

  predicate IsSpace(c: char) {
    c == ' ' || c == '\t' || c == '\r' || c == '\n' || c == 11 as char
  }

  predicate IsSymbol(c: char) {
    c in "<|>&;()"
  }

  predicate IsWordChar(c: char) {
    !IsSpace(c) && !IsSymbol(c)
  }

  /** Blank, tab, carriage return, newline and vertical tab separate words, and seven characters
      are operators. */
  lemma CharClasses(c: char)
    ensures IsSpace(c) <==> c as int == 32 || c as int == 9 || c as int == 13 || c as int == 10 || c as int == 11
    ensures IsSymbol(c) <==> c == '<' || c == '>' || c == '|' || c == '&' || c == ';' || c == '(' || c == ')'
  {
  }

  function SkipSpace(s: string, p: nat): (q: nat)
    requires p <= |s|
    ensures p <= q <= |s| && (q < |s| ==> !IsSpace(s[q]))
    decreases |s| - p
  {
    if p < |s| && IsSpace(s[p]) then SkipSpace(s, p + 1) else p
  }

  function SkipWord(s: string, p: nat): (q: nat)
    requires p <= |s|
    ensures p <= q <= |s|
    decreases |s| - p
  {
    if p < |s| && IsWordChar(s[p]) then SkipWord(s, p + 1) else p
  }

  lemma {:induction false} SkipWordMeaning(s: string, p: nat)
    requires p <= |s|
    ensures var q := SkipWord(s, p);
            (q < |s| ==> !IsWordChar(s[q])) && forall i :: p <= i < q ==> IsWordChar(s[i])
    decreases |s| - p
  {
    if p < |s| && IsWordChar(s[p]) {
      SkipWordMeaning(s, p + 1);
    }
  }

  /** The token after p: its kind ('a' for words, NUL at the end), its extent, and where the
      text goes on behind it. */
  datatype Lexeme = Lexeme(kind: char, start: nat, end: nat, next: nat)

  function Kind(s: string, q: nat): char
    requires q <= |s|
  {
    if q == |s| then '\0'
    else if s[q] == '>' then (if q + 1 < |s| && s[q + 1] == '>' then '+' else '>')
    else if IsSymbol(s[q]) then s[q]
    else 'a'
  }

  function TokenEnd(s: string, q: nat): (e: nat)
    requires q <= |s|
    ensures q <= e <= |s| && (q < |s| && !IsSpace(s[q]) ==> q < e)
  {
    match Kind(s, q)
    case '\0' => q
    case 'a' => SkipWord(s, q)
    case '+' => q + 2
    case _ => q + 1
  }

  function Lex(s: string, p: nat): (l: Lexeme)
    requires p <= |s|
    ensures p <= l.start <= l.end <= l.next <= |s| && (l.kind != '\0' ==> p < l.next)
  {
    var q := SkipSpace(s, p);
    Lexeme(Kind(s, q), q, TokenEnd(s, q), SkipSpace(s, TokenEnd(s, q)))
  }

  function TokOf(l: Lexeme): Tok<Span>
    requires l.start <= l.end
  {
    if l.kind == 'a' then Word(Span(l.start, l.end)) else Sym(l.kind)
  }

  /** All tokens from p on. */
  function Toks(s: string, p: nat): List<Tok<Span>>
    requires p <= |s|
    decreases |s| - p
  {
    var l := Lex(s, p);
    if l.kind == '\0' then Nil else Cons(TokOf(l), Toks(s, l.next))
  }

  /** C strings: no NUL before the end. */
  predicate NulFree(s: string) {
    forall i :: 0 <= i < |s| ==> s[i] != '\0'
  }

  lemma KindEnd(s: string, q: nat)
    requires q <= |s| && NulFree(s)
    ensures Kind(s, q) == '\0' <==> q == |s|
  {
  }

  lemma {:induction false} SkipSpaceTwice(s: string, p: nat)
    requires p <= |s|
    ensures SkipSpace(s, SkipSpace(s, p)) == SkipSpace(s, p)
  {
  }

  lemma ToksSkip(s: string, p: nat)
    requires p <= |s|
    ensures Toks(s, SkipSpace(s, p)) == Toks(s, p)
  {
  }

  // ----- words and where they end -----

  /** A maximal run of word characters. */
  predicate WordSpan(s: string, w: Span) {
    && w.start < w.end <= |s|
    && (forall i :: w.start <= i < w.end ==> IsWordChar(s[i]))
    && (w.end < |s| ==> !IsWordChar(s[w.end]))
  }

  ghost predicate ToksAll<W>(ok: W -> bool, ts: List<Tok<W>>) {
    ts.Cons? ==> (ts.head.Word? ==> ok(ts.head.w)) && ToksAll(ok, ts.tail)
  }

  ghost predicate CmdAll<W>(ok: W -> bool, c: Cmd<W>) {
    match c
    case Exec(argv) => forall i :: 0 <= i < |argv| ==> ok(argv[i])
    case Redir(d, file, _, _, _) => ok(file) && CmdAll(ok, d)
    case Pipe(l, r) => CmdAll(ok, l) && CmdAll(ok, r)
    case Seq(l, r) => CmdAll(ok, l) && CmdAll(ok, r)
    case Back(d) => CmdAll(ok, d)
  }

  lemma {:induction false} ToksAreWords(s: string, p: nat)
    requires p <= |s| && NulFree(s)
    ensures ToksAll(w => WordSpan(s, w), Toks(s, p))
    decreases |s| - p
  {
    var l := Lex(s, p);
    if l.kind != '\0' {
      SkipWordMeaning(s, l.start);
      ToksAreWords(s, l.next);
    }
  }

  // Parsing uses only words that are in the text.

  lemma {:induction false} AddArgAll<W>(ok: W -> bool, c: Cmd<W>, w: W)
    requires CmdAll(ok, c) && ok(w)
    ensures CmdAll(ok, AddArg(c, w))
  {
    if c.Redir? {
      AddArgAll(ok, c.cmd, w);
    }
  }

  ghost predicate ParsedAll<W>(ok: W -> bool, p: Parsed<W>) {
    p.Ok? ==> CmdAll(ok, p.cmd) && ToksAll(ok, p.rest)
  }

  lemma {:induction false} ParseRedirsAll<W>(ok: W -> bool, c: Cmd<W>, ts: List<Tok<W>>)
    requires CmdAll(ok, c) && ToksAll(ok, ts)
    ensures ParsedAll(ok, ParseRedirs(c, ts))
    decreases ts
  {
    if Peek(ts, "<>") && ts.tail.Cons? && ts.tail.head.Word? {
      ParseRedirsAll(ok, Redirected(c, ts.head.kind, ts.tail.head.w), ts.tail.tail);
    }
  }

  lemma {:induction false} ParseWordsAll<W>(ok: W -> bool, c: Cmd<W>, ts: List<Tok<W>>)
    requires CmdAll(ok, c) && ToksAll(ok, ts)
    ensures ParsedAll(ok, ParseWords(c, ts))
    decreases Length(ts)
  {
    ParseRedirsAll(ok, c, ts);
    var p := ParseRedirs(c, ts);
    if p.Ok? && p.rest.Cons? && p.rest.head.Word? {
      AddArgAll(ok, p.cmd, p.rest.head.w);
      ParseWordsAll(ok, AddArg(p.cmd, p.rest.head.w), p.rest.tail);
    }
  }

  lemma {:induction false} ParseExecAll<W>(ok: W -> bool, ts: List<Tok<W>>)
    requires ToksAll(ok, ts)
    ensures ParsedAll(ok, ParseExec(ts))
    decreases Length(ts), 1
  {
    if Peek(ts, "(") {
      ParseLineAll(ok, ts.tail);
      var p := ParseLine(ts.tail);
      if p.Ok? && Peek(p.rest, ")") {
        ParseRedirsAll(ok, p.cmd, p.rest.tail);
      }
    } else {
      ParseWordsAll(ok, Exec([]), ts);
    }
  }

  lemma {:induction false} ParsePipeAll<W>(ok: W -> bool, ts: List<Tok<W>>)
    requires ToksAll(ok, ts)
    ensures ParsedAll(ok, ParsePipe(ts))
    decreases Length(ts), 2
  {
    ParseExecAll(ok, ts);
    var p := ParseExec(ts);
    if p.Ok? && Peek(p.rest, "|") {
      ParsePipeAll(ok, p.rest.tail);
    }
  }

  lemma {:induction false} ParseBacksAll<W>(ok: W -> bool, c: Cmd<W>, ts: List<Tok<W>>)
    requires CmdAll(ok, c) && ToksAll(ok, ts)
    ensures ParsedAll(ok, ParseBacks(c, ts))
    decreases ts
  {
    if Peek(ts, "&") {
      ParseBacksAll(ok, Back(c), ts.tail);
    }
  }

  lemma {:induction false} ParseLineAll<W>(ok: W -> bool, ts: List<Tok<W>>)
    requires ToksAll(ok, ts)
    ensures ParsedAll(ok, ParseLine(ts))
    decreases Length(ts), 3
  {
    ParsePipeAll(ok, ts);
    var p := ParsePipe(ts);
    if p.Ok? {
      ParseBacksAll(ok, p.cmd, p.rest);
      var b := ParseBacks(p.cmd, p.rest);
      if Peek(b.rest, ";") {
        ParseLineAll(ok, b.rest.tail);
      }
    }
  }

  // ----- ending the words in place -----

  /** w is one of the words of the command. */
  ghost predicate Has(c: Cmd<Span>, w: Span) {
    match c
    case Exec(argv) => w in argv
    case Redir(d, file, _, _, _) => w == file || Has(d, w)
    case Pipe(l, r) => Has(l, w) || Has(r, w)
    case Seq(l, r) => Has(l, w) || Has(r, w)
    case Back(d) => Has(d, w)
  }

  ghost predicate EndsAt(c: Cmd<Span>, i: int) {
    exists w :: Has(c, w) && w.end == i
  }

  lemma {:induction false} HasAll(ok: Span -> bool, c: Cmd<Span>, w: Span)
    requires CmdAll(ok, c) && Has(c, w)
    ensures ok(w)
  {
    match c
    case Exec(argv) =>
    case Redir(d, file, _, _, _) => if w != file { HasAll(ok, d, w); }
    case Pipe(l, r) => if Has(l, w) { HasAll(ok, l, w); } else { HasAll(ok, r, w); }
    case Seq(l, r) => if Has(l, w) { HasAll(ok, l, w); } else { HasAll(ok, r, w); }
    case Back(d) => HasAll(ok, d, w);
  }

  /** t is s, with its terminating NUL, after a NUL has been put at the end of every word. */
  ghost predicate Ended(s: string, c: Cmd<Span>, t: string) {
    && |t| > |s| && t[|s|] == '\0'
    && (forall i :: 0 <= i < |s| ==> t[i] == if EndsAt(c, i) then '\0' else s[i])
  }

  /** What a C program reads in t from position p on. */
  function CString(t: string, p: nat): string
    requires p <= |t|
    decreases |t| - p
  {
    if p == |t| || t[p] == '\0' then "" else [t[p]] + CString(t, p + 1)
  }

  lemma {:induction false} CStringIs(t: string, p: nat, e: nat)
    requires p <= e < |t| && t[e] == '\0' && forall i :: p <= i < e ==> t[i] != '\0'
    ensures CString(t, p) == t[p..e]
    decreases e - p
  {
    if p < e {
      CStringIs(t, p + 1, e);
    }
  }

  /** No NUL lands inside a word: each word, read as a C string, is what it was in the line. */
  lemma WordsSurvive(s: string, c: Cmd<Span>, t: string, w: Span)
    requires NulFree(s) && CmdAll(v => WordSpan(s, v), c) && Ended(s, c, t) && Has(c, w)
    ensures w.start < w.end <= |s| && CString(t, w.start) == s[w.start..w.end]
  {
    HasAll(v => WordSpan(s, v), c, w);
    forall i | w.start <= i < w.end
      ensures t[i] == s[i] && t[i] != '\0'
    {
      forall v | Has(c, v)
        ensures v.end != i
      {
        HasAll(v => WordSpan(s, v), c, v);
      }
    }
    assert t[w.end] == '\0' by {
      assert EndsAt(c, w.end);
    }
    CStringIs(t, w.start, w.end);
    assert t[w.start..w.end] == s[w.start..w.end];
  }

  // ----- writing tokens down -----

  /** A token with the blanks in front of it. */
  datatype Spaced = Spaced(gap: string, tok: Tok<string>)

  function TokText(t: Tok<string>): string {
    match t
    case Word(w) => w
    case Sym('+') => ">>"
    case Sym(k) => [k]
  }

  /** The text of a layout of tokens, with some blanks at the end. */
  function Text(l: List<Spaced>, last: string): string {
    match l
    case Nil => last
    case Cons(x, rest) => x.gap + (TokText(x.tok) + Text(rest, last))
  }

  function Strip(l: List<Spaced>): List<Tok<string>> {
    match l
    case Nil => Nil
    case Cons(x, rest) => Cons(x.tok, Strip(rest))
  }

  predicate Blank(s: string) {
    forall i :: 0 <= i < |s| ==> IsSpace(s[i])
  }

  predicate WordText(w: string) {
    w != "" && forall i :: 0 <= i < |w| ==> IsWordChar(w[i]) && w[i] != '\0'
  }

  predicate TokOk(t: Tok<string>) {
    match t
    case Word(w) => WordText(w)
    case Sym(k) => k == '+' || IsSymbol(k)
  }

  /** Blanks are needed between two words, and between > and a token that begins with >. */
  predicate NeedsGap(t: Tok<string>, u: Tok<string>) {
    || (t.Word? && u.Word?)
    || (t == Sym('>') && (u == Sym('>') || u == Sym('+')))
  }

  predicate LegalLayout(l: List<Spaced>) {
    l.Cons? ==>
      && TokOk(l.head.tok) && Blank(l.head.gap) && LegalLayout(l.tail)
      && (l.tail.Cons? && NeedsGap(l.head.tok, l.tail.head.tok) ==> l.tail.head.gap != "")
  }

  /** A layout of tokens is a C string. */
  lemma {:induction false} TextNulFree(l: List<Spaced>, last: string)
    requires LegalLayout(l) && Blank(last)
    ensures NulFree(Text(l, last))
  {
    match l
    case Nil =>
    case Cons(x, rest) => TextNulFree(rest, last);
  }

  lemma {:induction false} SkipSpaceTo(s: string, p: nat, q: nat)
    requires p <= q <= |s| && (forall i :: p <= i < q ==> IsSpace(s[i])) && (q < |s| ==> !IsSpace(s[q]))
    ensures SkipSpace(s, p) == q
    decreases q - p
  {
    if p < q {
      SkipSpaceTo(s, p + 1, q);
    }
  }

  lemma {:induction false} SkipWordTo(s: string, p: nat, q: nat)
    requires p <= q <= |s| && (forall i :: p <= i < q ==> IsWordChar(s[i])) && (q < |s| ==> !IsWordChar(s[q]))
    ensures SkipWord(s, p) == q
    decreases q - p
  {
    if p < q {
      SkipWordTo(s, p + 1, q);
    }
  }

  /** From p up to its end the text is spelt by a layout. */
  predicate Spells(s: string, p: nat, l: List<Spaced>, last: string)
    decreases l
  {
    match l
    case Nil => Occurs(s, p, last) && p + |last| == |s|
    case Cons(x, rest) =>
      var q := p + |x.gap|;
      Occurs(s, p, x.gap) && Occurs(s, q, TokText(x.tok)) && Spells(s, q + |TokText(x.tok)|, rest, last)
  }

  lemma {:induction false} SpellsLonger(pre: string, s: string, p: nat, l: List<Spaced>, last: string)
    requires Spells(s, p, l, last)
    ensures Spells(pre + s, |pre| + p, l, last)
    decreases l
  {
    if l.Cons? {
      SpellsLonger(pre, s, p + |l.head.gap| + |TokText(l.head.tok)|, l.tail, last);
    }
  }

  lemma {:induction false} TextSpells(l: List<Spaced>, last: string)
    ensures Spells(Text(l, last), 0, l, last)
  {
    if l.Cons? {
      var gap, t, after := l.head.gap, TokText(l.head.tok), Text(l.tail, last);
      TextSpells(l.tail, last);
      SpellsLonger(t, after, 0, l.tail, last);
      SpellsLonger(gap, t + after, |t|, l.tail, last);
    }
  }

  /** How the text after a token begins. */
  lemma NextChar(s: string, p: nat, t: Tok<string>, l: List<Spaced>, last: string)
    requires TokOk(t) && LegalLayout(l) && Blank(last) && Spells(s, p, l, last)
    requires l.Cons? && NeedsGap(t, l.head.tok) ==> l.head.gap != ""
    ensures p <= |s|
    ensures p < |s| && t.Word? ==> !IsWordChar(s[p])
    ensures p < |s| && t == Sym('>') ==> s[p] != '>'
  {
    match l
    case Nil =>
      assert last != "" ==> s[p + 0] == last[0];
    case Cons(x, rest) =>
      if x.gap != "" {
        assert s[p + 0] == x.gap[0];
      } else {
        assert s[p + 0] == TokText(x.tok)[0];
      }
  }

  function TextOf(s: string): Span -> string {
    (w: Span) => if w.start <= w.end <= |s| then s[w.start..w.end] else ""
  }

  /** From p on, up to the end, the text holds these tokens. */
  ghost predicate Reads(s: string, p: nat, ts: List<Tok<string>>)
    requires p <= |s|
    decreases ts
  {
    match ts
    case Nil => Lex(s, p).kind == '\0'
    case Cons(t, rest) => LexIs(s, p, t) && Reads(s, Lex(s, p).next, rest)
  }

  ghost predicate LexIs(s: string, p: nat, t: Tok<string>)
    requires p <= |s|
  {
    Lex(s, p).kind != '\0' && MapTok(TextOf(s), TokOf(Lex(s, p))) == t
  }

  lemma {:induction false} ReadsToks(s: string, p: nat, ts: List<Tok<string>>)
    requires p <= |s| && Reads(s, p, ts)
    ensures MapToks(TextOf(s), Toks(s, p)) == ts
    decreases ts
  {
    if ts.Cons? {
      ReadsToks(s, Lex(s, p).next, ts.tail);
    }
  }

  /** Blanks in front do not matter. */
  lemma ReadsSkip(s: string, p: nat, ts: List<Tok<string>>)
    requires p <= |s| && Reads(s, p, ts)
    ensures Reads(s, SkipSpace(s, p), ts)
  {
  }

  /** The text of a token, up to what cannot belong to it, is read as that token. */
  lemma TokenRead(s: string, p: nat, q: nat, t: Tok<string>)
    requires TokOk(t) && p <= q && (forall i :: p <= i < q ==> i < |s| && IsSpace(s[i])) && Occurs(s, q, TokText(t))
    requires var e := q + |TokText(t)|;
             e < |s| ==> (t.Word? ==> !IsWordChar(s[e])) && (t == Sym('>') ==> s[e] != '>')
    ensures LexIs(s, p, t) && Lex(s, p).next == SkipSpace(s, q + |TokText(t)|)
  {
    var e := q + |TokText(t)|;
    assert s[q + 0] == TokText(t)[0];
    SkipSpaceTo(s, p, q);
    match t
    case Word(w) =>
      forall i | q <= i < e
        ensures IsWordChar(s[i])
      {
        assert s[q + (i - q)] == w[i - q];
      }
      SkipWordTo(s, q, e);
      assert s[q..e] == w;
    case Sym(k) =>
      if k == '+' {
        assert s[q + 1] == TokText(t)[1];
      }
  }

  /** The tokens read back from a text are those that were written, whatever the blanks. */
  lemma {:induction false} TextReads(s: string, p: nat, l: List<Spaced>, last: string)
    requires LegalLayout(l) && Blank(last) && p <= |s| && Spells(s, p, l, last)
    ensures Reads(s, p, Strip(l))
    decreases l
  {
    match l
    case Nil =>
      BlankAt(s, p, last);
      SkipSpaceTo(s, p, |s|);
    case Cons(x, rest) =>
      var q := p + |x.gap|;
      var e := q + |TokText(x.tok)|;
      BlankAt(s, p, x.gap);
      NextChar(s, e, x.tok, rest, last);
      TokenRead(s, p, q, x.tok);
      TextReads(s, e, rest, last);
      ReadsOn(s, p, e, x.tok, Strip(rest));
  }

  lemma ReadsOn(s: string, p: nat, e: nat, t: Tok<string>, ts: List<Tok<string>>)
    requires p <= |s| && e <= |s| && LexIs(s, p, t) && Lex(s, p).next == SkipSpace(s, e) && Reads(s, e, ts)
    ensures Reads(s, p, Cons(t, ts))
  {
    ReadsSkip(s, e, ts);
  }

  lemma BlankAt(s: string, p: nat, gap: string)
    requires Blank(gap) && Occurs(s, p, gap)
    ensures forall i :: p <= i < p + |gap| ==> i < |s| && IsSpace(s[i])
  {
    forall i | p <= i < p + |gap|
      ensures i < |s| && IsSpace(s[i])
    {
      assert s[p + (i - p)] == gap[i - p];
    }
  }

  lemma ToksOfText(l: List<Spaced>, last: string)
    requires LegalLayout(l) && Blank(last)
    ensures MapToks(TextOf(Text(l, last)), Toks(Text(l, last), 0)) == Strip(l)
  {
    var s := Text(l, last);
    TextSpells(l, last);
    TextReads(s, 0, l, last);
    ReadsToks(s, 0, Strip(l));
  }
}
