/** The command line parser of the shell: a cursor moving over a C string in memory, and the
    pass that ends the words of the parsed command in place. */
module Shell {
  import opened ShellGrammar
  import opened ShellLexer

  /** A command, or the message with which the shell gives up. */
  datatype Outcome = Built(cmd: Cmd<Span>) | Panic(error: Error)

  /** What a parsing function owes to its counterpart on tokens: the same command or message,
      and the cursor in front of the tokens that are left. */
  ghost predicate Agrees(r: Outcome, left: List<Tok<Span>>, p: Parsed<Span>) {
    match p
    case Ok(c, rest) => r == Built(c) && left == rest
    case Fail(e) => r == Panic(e)
  }

  /** The parser after some redirections have been read. */
  ghost function ParseMore<W>(d: Cmd<W>, rest: List<Tok<W>>): Parsed<W> {
    if Follows(rest) then Ok(d, rest)
    else if !rest.head.Word? then Fail(Syntax)
    else if Argc(d) + 1 >= MAXARGS then Fail(TooManyArgs)
    else ParseWords(AddArg(d, rest.head.w), rest.tail)
  }

  class Parser {
    const buf: array<char>
    const es: nat
    var ps: nat

    ghost predicate Valid()
      reads this, buf
    {
      ps <= es < buf.Length && buf[es] == '\0' && NulFree(buf[..es])
    }

    constructor (buf: array<char>, es: nat)
      requires es < buf.Length && buf[es] == '\0' && NulFree(buf[..es])
      ensures Valid() && this.buf == buf && this.es == es && ps == 0
    {
      this.buf, this.es, ps := buf, es, 0;
    }

    ghost function Line(): string
      requires Valid()
      reads this, buf
    {
      buf[..es]
    }

    /** The tokens still to come. */
    ghost function Left(): List<Tok<Span>>
      requires Valid()
      reads this, buf
    {
      Toks(Line(), ps)
    }

    /** The loop over blanks that starts and ends a token. */
    method SkipBlanks(p: nat) returns (s: nat)
      requires Valid() && p <= es
      ensures s == SkipSpace(Line(), p)
    {
      s := p;
      while s < es && IsSpace(buf[s])
        invariant p <= s <= es && SkipSpace(Line(), s) == SkipSpace(Line(), p)
      {
        s := s + 1;
      }
    }

    /** Takes one token off the tokens to come: its kind, 'a' for words and NUL at the end, and
        its extent. */
    method GetToken() returns (ret: char, q: nat, eq: nat)
      requires Valid()
      modifies this`ps
      ensures Valid() && q <= eq && Lex(Line(), old(ps)) == Lexeme(ret, q, eq, ps)
      ensures if ret == '\0' then old(Left()) == Nil && Left() == Nil
              else old(Left()) == Cons(if ret == 'a' then Word(Span(q, eq)) else Sym(ret), Left())
    {
      var s := SkipBlanks(ps);
      q, ret := s, buf[s];
      KindEnd(Line(), q);
      if buf[s] == '\0' {
      } else if buf[s] in "|();&<" {
        s := s + 1;
      } else if buf[s] == '>' {
        s := s + 1;
        if buf[s] == '>' {
          ret := '+';
          s := s + 1;
        }
      } else {
        ret := 'a';
        while s < es && !IsSpace(buf[s]) && !IsSymbol(buf[s])
          invariant q <= s <= es && SkipWord(Line(), s) == SkipWord(Line(), q)
        {
          s := s + 1;
        }
      }
      eq := s;
      assert ret == Kind(Line(), q) && eq == TokenEnd(Line(), q);
      SkipSpaceTwice(Line(), ps);
      ps := SkipBlanks(s);
    }

    method PeekFor(toks: string) returns (b: bool)
      requires Valid() && forall c :: c in toks ==> IsSymbol(c)
      modifies this`ps
      ensures Valid() && Left() == old(Left()) && b == Peek(Left(), toks) && ps == SkipSpace(Line(), old(ps))
    {
      ToksSkip(Line(), ps);
      SkipSpaceTwice(Line(), ps);
      ps := SkipBlanks(ps);
      KindEnd(Line(), ps);
      b := buf[ps] != '\0' && buf[ps] in toks;
    }

    method Redirs(cmd: Cmd<Span>) returns (r: Outcome)
      requires Valid()
      modifies this`ps
      ensures Valid() && Agrees(r, Left(), ParseRedirs(cmd, old(Left())))
    {
      var c := cmd;
      var more := PeekFor("<>");
      while more
        invariant Valid() && more == Peek(Left(), "<>")
        invariant ParseRedirs(c, Left()) == ParseRedirs(cmd, old(Left()))
        decreases Length(Left())
      {
        ghost var ts := Left();
        var tok, _, _ := GetToken();
        var kind, q, eq := GetToken();
        RedirStep(c, ts, tok, kind, Span(q, eq), Left());
        if kind != 'a' {
          return Panic(MissingFile);
        }
        if tok == '<' {
          c := Redir(c, Span(q, eq), O_RDONLY, 0, SEEK_SET);
        } else if tok == '>' {
          c := Redir(c, Span(q, eq), O_WRONLY + O_CREATE + O_TRUNC, 1, SEEK_SET);
        } else if tok == '+' {
          c := Redir(c, Span(q, eq), O_WRONLY + O_CREATE, 1, SEEK_END);
        }
        more := PeekFor("<>");
      }
      r := Built(c);
    }

    method Block() returns (r: Outcome)
      requires Valid()
      modifies this`ps
      ensures Valid()
      ensures if old(Peek(Left(), "(")) then Agrees(r, Left(), ParseBlock(old(Left()))) else r == Panic(NoBlock)
      decreases Length(Left()), 4
    {
      var open := PeekFor("(");
      if !open {
        return Panic(NoBlock);
      }
      var _, _, _ := GetToken();
      r := ParseLineAt();
      if r.Panic? {
        return;
      }
      var close := PeekFor(")");
      if !close {
        return Panic(MissingParen);
      }
      var _, _, _ := GetToken();
      r := Redirs(r.cmd);
    }

    method ExecAt() returns (r: Outcome)
      requires Valid()
      modifies this`ps
      ensures Valid() && Agrees(r, Left(), ParseExec(old(Left())))
      decreases Length(Left()), 5
    {
      var open := PeekFor("(");
      if open {
        r := Block();
      } else {
        r := SimpleAt();
      }
    }

    /** The part of parseexec for commands without brackets. */
    method SimpleAt() returns (r: Outcome)
      requires Valid()
      modifies this`ps
      ensures Valid() && Agrees(r, Left(), ParseWords(Exec([]), old(Left())))
    {
      var argc := 0;
      ghost var all := ParseWords(Exec([]), Left());
      AfterRedirs(Exec([]), Left());
      r := Redirs(Exec([]));
      if r.Panic? {
        return;
      }
      var ret := r.cmd;
      var stop := PeekFor("|)&;");
      while !stop
        invariant Valid() && stop == Peek(Left(), "|)&;")
        invariant argc == Argc(ret) < MAXARGS && IsSimple(ret)
        invariant ParseMore(ret, Left()) == all
        decreases Length(Left())
      {
        ghost var ts := Left();
        var tok, q, eq := GetToken();
        WordStep(ret, ts, tok, Span(q, eq), Left());
        if tok == '\0' {
          break;
        }
        if tok != 'a' {
          return Panic(Syntax);
        }
        ret := AddArg(ret, Span(q, eq));
        argc := argc + 1;
        if argc >= MAXARGS {
          return Panic(TooManyArgs);
        }
        AfterRedirs(ret, Left());
        r := Redirs(ret);
        if r.Panic? {
          return;
        }
        ret := r.cmd;
        stop := PeekFor("|)&;");
      }
      r := Built(ret);
    }

    method PipeAt() returns (r: Outcome)
      requires Valid()
      modifies this`ps
      ensures Valid() && Agrees(r, Left(), ParsePipe(old(Left())))
      decreases Length(Left()), 6
    {
      r := ExecAt();
      if r.Panic? {
        return;
      }
      var bar := PeekFor("|");
      if bar {
        var _, _, _ := GetToken();
        var right := PipeAt();
        r := if right.Panic? then right else Built(Pipe(r.cmd, right.cmd));
      }
    }

    method ParseLineAt() returns (r: Outcome)
      requires Valid()
      modifies this`ps
      ensures Valid() && Agrees(r, Left(), ParseLine(old(Left())))
      decreases Length(Left()), 7
    {
      r := PipeAt();
      if r.Panic? {
        return;
      }
      var cmd := r.cmd;
      ghost var d, ts := cmd, Left();
      var amp := PeekFor("&");
      while amp
        invariant Valid() && amp == Peek(Left(), "&") && ParseBacks(cmd, Left()) == ParseBacks(d, ts)
        decreases Length(Left())
      {
        var _, _, _ := GetToken();
        cmd := Back(cmd);
        amp := PeekFor("&");
      }
      r := Built(cmd);
      var semi := PeekFor(";");
      if semi {
        var _, _, _ := GetToken();
        var right := ParseLineAt();
        r := if right.Panic? then right else Built(Seq(cmd, right.cmd));
      }
    }

    /** Puts a NUL behind every word of the command. */
    method NulTerminate(cmd: Cmd<Span>)
      requires CmdAll((w: Span) => w.end < buf.Length, cmd)
      modifies buf
      ensures forall i :: 0 <= i < buf.Length ==> buf[i] == if EndsAt(cmd, i) then '\0' else old(buf[i])
      decreases cmd
    {
      match cmd
      case Exec(argv) =>
        for i := 0 to |argv|
          invariant forall k :: 0 <= k < buf.Length ==>
                      buf[k] == if exists j :: 0 <= j < i && argv[j].end == k then '\0' else old(buf[k])
        {
          buf[argv[i].end] := '\0';
        }
        forall k
          ensures EndsAt(cmd, k) <==> exists j :: 0 <= j < |argv| && argv[j].end == k
        {
          assert forall j :: 0 <= j < |argv| ==> Has(cmd, argv[j]);
        }
      case Redir(sub, file, _, _, _) =>
        NulTerminate(sub);
        EndsOf(cmd);
        buf[file.end] := '\0';
      case Pipe(left, right) =>
        NulTerminate(left);
        NulTerminate(right);
        EndsOf(cmd);
      case Seq(left, right) =>
        NulTerminate(left);
        NulTerminate(right);
        EndsOf(cmd);
      case Back(sub) =>
        NulTerminate(sub);
        EndsOf(cmd);
    }

    /** Parses the whole line and ends its words; every word, read as a C string, is then what
        it was in the line. */
    method ParseCmd() returns (r: Outcome)
      requires Valid() && ps == 0
      modifies this`ps, buf
      ensures match ParseAll(Toks(old(Line()), 0))
              case Fail(e) => r == Panic(e) && buf[..] == old(buf[..])
              case Ok(c, _) =>
                && r == Built(c) && Ended(old(Line()), c, buf[..])
                && forall w :: Has(c, w) ==>
                     w.start < w.end <= es && CString(buf[..], w.start) == old(Line())[w.start..w.end]
    {
      ghost var s := Line();
      ToksAreWords(s, 0);
      ParseLineAll(w => WordSpan(s, w), Left());
      r := ParseLineAt();
      if r.Panic? {
        return;
      }
      AtEnd(s, ps);
      var _ := PeekFor("");
      if ps != es {
        return Panic(Leftovers);
      }
      var c := r.cmd;
      WordsInside(s, c, buf.Length);
      NulTerminate(c);
      forall w | Has(c, w)
        ensures w.start < w.end <= es && CString(buf[..], w.start) == s[w.start..w.end]
      {
        WordsSurvive(s, c, buf[..], w);
      }
    }
  }

  lemma EndsOf(c: Cmd<Span>)
    ensures c.Redir? ==> forall i :: EndsAt(c, i) <==> i == c.file.end || EndsAt(c.cmd, i)
    ensures c.Pipe? || c.Seq? ==> forall i :: EndsAt(c, i) <==> EndsAt(c.left, i) || EndsAt(c.right, i)
    ensures c.Back? ==> forall i :: EndsAt(c, i) <==> EndsAt(c.cmd, i)
  {
  }

  lemma AtEnd(s: string, p: nat)
    requires p <= |s| && NulFree(s)
    ensures Toks(s, p) == Nil <==> SkipSpace(s, p) == |s|
  {
  }

  lemma {:induction false} WordsInside(s: string, c: Cmd<Span>, n: nat)
    requires CmdAll(w => WordSpan(s, w), c) && |s| < n
    ensures CmdAll((w: Span) => w.end < n, c)
    decreases c
  {
    match c
    case Exec(_) =>
    case Redir(d, _, _, _, _) => WordsInside(s, d, n);
    case Pipe(l, r) =>
      WordsInside(s, l, n);
      WordsInside(s, r, n);
    case Seq(l, r) =>
      WordsInside(s, l, n);
      WordsInside(s, r, n);
    case Back(d) => WordsInside(s, d, n);
  }

  /** Two tokens read at a redirection: its operator and what should be a file. */
  lemma RedirStep(c: Cmd<Span>, ts: List<Tok<Span>>, tok: char, kind: char, w: Span, rest: List<Tok<Span>>)
    requires Peek(ts, "<>") && ts.head == Sym(tok)
    requires if kind == '\0' then ts.tail == Nil else ts.tail == Cons(if kind == 'a' then Word(w) else Sym(kind), rest)
    ensures if kind == 'a' then
              && LegalOp(tok) && Length(rest) < Length(ts)
              && ParseRedirs(c, ts) == ParseRedirs(Redirected(c, tok, w), rest)
            else ParseRedirs(c, ts) == Fail(MissingFile)
  {
  }

  /** A token read where a word should be. */
  lemma WordStep(ret: Cmd<Span>, ts: List<Tok<Span>>, tok: char, w: Span, rest: List<Tok<Span>>)
    requires !Peek(ts, "|)&;") && IsSimple(ret)
    requires if tok == '\0' then ts == Nil else ts == Cons(if tok == 'a' then Word(w) else Sym(tok), rest)
    ensures IsSimple(AddArg(ret, w)) && Argc(AddArg(ret, w)) == Argc(ret) + 1
    ensures if tok == '\0' then ParseMore(ret, ts) == Ok(ret, ts)
            else if tok != 'a' then ParseMore(ret, ts) == Fail(Syntax)
            else if Argc(ret) + 1 >= MAXARGS then ParseMore(ret, ts) == Fail(TooManyArgs)
            else ParseMore(ret, ts) == ParseWords(AddArg(ret, w), rest) && Length(rest) < Length(ts)
  {
    AddArgCounts(ret, w);
  }

  lemma AfterRedirs(c: Cmd<Span>, ts: List<Tok<Span>>)
    requires IsSimple(c)
    ensures match ParseRedirs(c, ts)
            case Fail(e) => ParseWords(c, ts) == Fail(e)
            case Ok(d, rest) => IsSimple(d) && Argc(d) == Argc(c) && ParseWords(c, ts) == ParseMore(d, rest)
  {
    RedirsSimple(c, ts);
  }

  lemma {:induction false} RedirsSimple<W>(c: Cmd<W>, ts: List<Tok<W>>)
    requires IsSimple(c)
    ensures var p := ParseRedirs(c, ts); p.Ok? ==> IsSimple(p.cmd) && Argc(p.cmd) == Argc(c)
    decreases ts
  {
    if Peek(ts, "<>") && ts.tail.Cons? && ts.tail.head.Word? {
      RedirsSimple(Redirected(c, ts.head.kind, ts.tail.head.w), ts.tail.tail);
    }
  }

  // ----- printing and parsing -----

  /** However a sentence is laid out, the parser builds the command that it stands for. */
  lemma SentenceParsed(line: Line<string>, l: List<Spaced>, last: string)
    requires LegalLine(line) && Strip(l) == LineToks(line, Nil) && LegalLayout(l) && Blank(last)
    ensures var s := Text(l, last); var p := ParseAll(Toks(s, 0));
            p.Ok? && MapCmd(TextOf(s), p.cmd) == LineCmd(line)
  {
    var s := Text(l, last);
    ToksOfText(l, last);
    ParseAllMap(TextOf(s), Toks(s, 0));
    LineComplete(line, Nil);
  }

  /** Only texts of sentences are accepted, and they get their meaning. */
  lemma OnlySentencesParsed(s: string) returns (line: Line<Span>)
    requires NulFree(s) && ParseAll(Toks(s, 0)).Ok?
    ensures LegalLine(line) && Toks(s, 0) == LineToks(line, Nil) && ParseAll(Toks(s, 0)).cmd == LineCmd(line)
  {
    line := LineSound(Toks(s, 0));
  }

  /** Words that can be written: not empty, without blanks, operators and NULs. */
  ghost predicate Printable(c: Cmd<string>) {
    Writable(c) && CmdAll(w => WordText(w), c)
  }

  /** A layout with one blank in front of every token. */
  function Spread(ts: List<Tok<string>>): List<Spaced> {
    match ts
    case Nil => Nil
    case Cons(t, rest) => Cons(Spaced(" ", t), Spread(rest))
  }

  function Print(c: Cmd<string>): string {
    Text(Spread(LineToks(Sentence(c), Nil)), "")
  }

  lemma {:induction false} SpreadStrip(ts: List<Tok<string>>)
    ensures Strip(Spread(ts)) == ts
  {
    if ts.Cons? {
      SpreadStrip(ts.tail);
    }
  }

  ghost predicate ToksOk(ts: List<Tok<string>>) {
    ts.Cons? ==> TokOk(ts.head) && ToksOk(ts.tail)
  }

  lemma {:induction false} SpreadLegal(ts: List<Tok<string>>)
    requires ToksOk(ts)
    ensures LegalLayout(Spread(ts))
  {
    if ts.Cons? {
      SpreadLegal(ts.tail);
    }
  }

  lemma {:induction false} WordItemsOk(argv: seq<string>, more: List<Tok<string>>)
    requires (forall i :: 0 <= i < |argv| ==> WordText(argv[i])) && ToksOk(more)
    ensures ToksOk(ItemToks(WordItems(argv), more))
    decreases |argv|
  {
    if argv != [] {
      WordItemsOk(argv[1..], more);
    }
  }

  lemma {:induction false} SentenceOk(c: Cmd<string>, more: List<Tok<string>>)
    requires Printable(c) && ToksOk(more)
    ensures ToksOk(LineToks(Sentence(c), more))
    decreases c, 0
  {
    match c
    case Exec(argv) =>
      WordItemsOk(argv, more);
      assert PipelineToks(Sentence(c).p, more) == ItemToks(WordItems(argv), more);
    case Redir(d, file, _, _, _) =>
      var rs := Cons(Redirection(OpOf(c), file), Nil);
      assert RedirToks(rs, more) == Cons(Sym(OpOf(c)), Cons(Word(file), RedirToks(rs.tail, more)));
      SentenceOk(d, Cons(Sym(')'), RedirToks(rs, more)));
      assert LineToks(Sentence(c), more) == ElementToks(Block(Sentence(d), rs), AmpToks(0, more));
    case Pipe(l, r) =>
      BracketOk(r, more);
      BracketOk(l, Cons(Sym('|'), ElementToks(Block(Sentence(r), Nil), more)));
      assert PipelineToks(Last(Block(Sentence(r), Nil)), more) == ElementToks(Block(Sentence(r), Nil), more);
      assert LineToks(Sentence(c), more) == PipelineToks(Sentence(c).p, more);
    case Seq(l, r) =>
      BracketOk(r, more);
      var next := Cons(Sym(';'), ElementToks(Block(Sentence(r), Nil), more));
      BracketOk(l, next);
      assert LineToks(Sentence(c).next, more) == PipelineToks(Last(Block(Sentence(r), Nil)), more) == next.tail;
      assert LineToks(Sentence(c), more) == PipelineToks(Last(Block(Sentence(l), Nil)), next);
    case Back(d) =>
      BracketOk(d, Cons(Sym('&'), more));
      assert AmpToks(1, more) == Cons(Sym('&'), AmpToks(0, more));
  }

  lemma {:induction false} BracketOk(c: Cmd<string>, more: List<Tok<string>>)
    requires Printable(c) && ToksOk(more)
    ensures ToksOk(ElementToks(Block(Sentence(c), Nil), more))
    decreases c, 1
  {
    SentenceOk(c, Cons(Sym(')'), RedirToks(Nil, more)));
  }

  /** Parsing undoes printing: every command is rebuilt from its printed form. */
  lemma ParsePrint(c: Cmd<string>)
    requires Printable(c)
    ensures var s := Print(c); var p := ParseAll(Toks(s, 0));
            NulFree(s) && p.Ok? && MapCmd(TextOf(s), p.cmd) == c
  {
    var ts := LineToks(Sentence(c), Nil);
    SentenceMeans(c);
    SentenceOk(c, Nil);
    SpreadStrip(ts);
    SpreadLegal(ts);
    SentenceParsed(Sentence(c), Spread(ts), "");
    TextNulFree(Spread(ts), "");
  }
}
