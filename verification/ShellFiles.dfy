/** The files of a command line: what each redirection opens, and what the operators ask for. */
module ShellFiles {
  import opened Options
  import opened ShellGrammar

  /** An open file: its number, what may be done with it, the bytes it holds and where reading or
      writing starts. */
  datatype Channel = Channel(fd: int, readable: bool, writable: bool, contents: string, offset: int)

  predicate HasBit(mode: int, bit: nat)
    requires bit > 0
  {
    mode / bit % 2 == 1
  }

  /** What open and lseek come to, for a file with the given contents or a missing one. */
  function Opened(mode: int, fd: int, whence: int, was: Option<string>): Option<Channel> {
    if was.None? && !HasBit(mode, 0x200) then None
    else
      var contents := if was.None? || HasBit(mode, 0x400) then "" else was.value;
      var start := if whence == 2 then |contents| else 0;
      Some(Channel(fd, !HasBit(mode, 1), HasBit(mode, 1) || HasBit(mode, 2), contents, start))
  }

  /** A redirection of a command. */
  datatype Opening<+W> = Opening(file: W, mode: int, fd: int, whence: int)

  /** From left to right, those nearer to the words first. */
  function OpeningsOf<W>(c: Cmd<W>): seq<Opening<W>> {
    match c
    case Exec(_) => []
    case Redir(d, file, mode, fd, whence) => OpeningsOf(d) + [Opening(file, mode, fd, whence)]
    case Pipe(l, r) => OpeningsOf(l) + OpeningsOf(r)
    case Seq(l, r) => OpeningsOf(l) + OpeningsOf(r)
    case Back(d) => OpeningsOf(d)
  }

  /** An operator and the word behind it. */
  datatype Asked<+W> = Asked(op: char, file: W)

  predicate IsRedirection(op: char) {
    op == '<' || op == '>' || op == '+'
  }

  /** The redirections that the tokens write down, from left to right; + stands for >>. */
  function AskedIn<W>(ts: List<Tok<W>>): seq<Asked<W>> {
    match ts
    case Nil => []
    case Cons(Word(_), rest) => AskedIn(rest)
    case Cons(Sym(op), rest) =>
      if IsRedirection(op) && rest.Cons? && rest.head.Word? then
        [Asked(op, rest.head.w)] + AskedIn(rest.tail)
      else AskedIn(rest)
  }

  /** < opens an existing file for reading as standard input, from its start; > opens a file for
      writing as standard output, makes it if it is missing and empties it; >> the same, but
      keeps what the file holds and writes behind it. */
  ghost predicate Does<W>(r: Opening<W>, a: Asked<W>) {
    && r.file == a.file
    && (a.op == '<' ==>
          && Opened(r.mode, r.fd, r.whence, None) == None
          && forall s :: Opened(r.mode, r.fd, r.whence, Some(s)) == Some(Channel(0, true, false, s, 0)))
    && (a.op == '>' ==>
          && Opened(r.mode, r.fd, r.whence, None) == Some(Channel(1, false, true, "", 0))
          && forall s :: Opened(r.mode, r.fd, r.whence, Some(s)) == Some(Channel(1, false, true, "", 0)))
    && (a.op == '+' ==>
          && Opened(r.mode, r.fd, r.whence, None) == Some(Channel(1, false, true, "", 0))
          && forall s :: Opened(r.mode, r.fd, r.whence, Some(s)) == Some(Channel(1, false, true, s, |s|)))
  }

  ghost predicate AllDo<W>(rs: seq<Opening<W>>, asked: seq<Asked<W>>) {
    |rs| == |asked| && forall i :: 0 <= i < |rs| ==> Does(rs[i], asked[i])
  }

  // ----- the operators, one by one and in a sentence -----

  lemma OperatorDoes<W>(c: Cmd<W>, op: char, file: W)
    requires LegalOp(op)
    ensures var r := Redirected(c, op, file);
            r.Redir? && r.cmd == c && Does(Opening(r.file, r.mode, r.fd, r.whence), Asked(op, file))
  {
  }

  lemma AllDoBoth<W>(rs: seq<Opening<W>>, a: seq<Asked<W>>, rs': seq<Opening<W>>, a': seq<Asked<W>>)
    requires AllDo(rs, a) && AllDo(rs', a')
    ensures AllDo(rs + rs', a + a')
  {
  }

  lemma {:induction false} RedirsDo<W>(c: Cmd<W>, rs: List<Redirection<W>>, more: List<Tok<W>>)
    returns (os: seq<Opening<W>>, a: seq<Asked<W>>)
    requires LegalRedirs(rs)
    ensures AskedIn(RedirToks(rs, more)) == a + AskedIn(more)
    ensures OpeningsOf(Wrap(c, rs)) == OpeningsOf(c) + os && AllDo(os, a)
    decreases rs
  {
    os, a := [], [];
    match rs
    case Nil =>
    case Cons(r, rest) =>
      var d := Redirected(c, r.op, r.file);
      OperatorDoes(c, r.op, r.file);
      os, a := RedirsDo(d, rest, more);
      AllDoBoth([Opening(d.file, d.mode, d.fd, d.whence)], [Asked(r.op, r.file)], os, a);
      Grouped(OpeningsOf(c), [Opening(d.file, d.mode, d.fd, d.whence)], os);
      Grouped([Asked(r.op, r.file)], a, AskedIn(more));
      os, a := [Opening(d.file, d.mode, d.fd, d.whence)] + os, [Asked(r.op, r.file)] + a;
  }

  lemma Grouped<T>(a: seq<T>, b: seq<T>, c: seq<T>)
    ensures a + b + c == a + (b + c)
  {
  }

  lemma {:induction false} ItemsAsk<W>(items: List<Item<W>>, more: List<Tok<W>>)
    requires LegalRedirs(Redirs(items))
    ensures AskedIn(ItemToks(items, more)) == AskedIn(RedirToks(Redirs(items), more))
    decreases items
  {
    match items
    case Nil =>
    case Cons(Arg(_), rest) => ItemsAsk(rest, more);
    case Cons(Redirect(r), rest) => ItemsAsk(rest, more);
  }

  lemma {:induction false} AmpsAsk<W>(n: nat, more: List<Tok<W>>)
    ensures AskedIn(AmpToks(n, more)) == AskedIn(more)
  {
    if n > 0 {
      AmpsAsk(n - 1, more);
    }
  }

  lemma {:induction false} BacksOpen<W>(c: Cmd<W>, n: nat)
    ensures OpeningsOf(Backs(c, n)) == OpeningsOf(c)
    decreases n
  {
    if n > 0 {
      BacksOpen(Back(c), n - 1);
    }
  }

  lemma {:induction false} ElementDoes<W>(e: Element<W>, more: List<Tok<W>>) returns (a: seq<Asked<W>>)
    requires LegalElement(e)
    ensures AskedIn(ElementToks(e, more)) == a + AskedIn(more) && AllDo(OpeningsOf(ElementCmd(e)), a)
    decreases e
  {
    var os;
    match e
    case Words(items) =>
      ItemsAsk(items, more);
      os, a := RedirsDo(Exec(Args(items)), Redirs(items), more);
      assert [] + os == os;
    case Block(line, redirs) =>
      var b := LineDoes(line, Cons(Sym(')'), RedirToks(redirs, more)));
      os, a := RedirsDo(LineCmd(line), redirs, more);
      AllDoBoth(OpeningsOf(LineCmd(line)), b, os, a);
      Grouped(b, a, AskedIn(more));
      a := b + a;
  }

  lemma {:induction false} PipelineDoes<W>(p: Pipeline<W>, more: List<Tok<W>>) returns (a: seq<Asked<W>>)
    requires LegalPipeline(p)
    ensures AskedIn(PipelineToks(p, more)) == a + AskedIn(more) && AllDo(OpeningsOf(PipelineCmd(p)), a)
    decreases p
  {
    match p
    case Last(e) =>
      a := ElementDoes(e, more);
    case Piped(e, next) =>
      a := ElementDoes(e, Cons(Sym('|'), PipelineToks(next, more)));
      var b := PipelineDoes(next, more);
      AllDoBoth(OpeningsOf(ElementCmd(e)), a, OpeningsOf(PipelineCmd(next)), b);
      Grouped(a, b, AskedIn(more));
      a := a + b;
  }

  lemma {:induction false} LineDoes<W>(l: Line<W>, more: List<Tok<W>>) returns (a: seq<Asked<W>>)
    requires LegalLine(l)
    ensures AskedIn(LineToks(l, more)) == a + AskedIn(more) && AllDo(OpeningsOf(LineCmd(l)), a)
    decreases l
  {
    BacksOpen(PipelineCmd(l.p), l.amps);
    match l
    case End(p, n) =>
      a := PipelineDoes(p, AmpToks(n, more));
      AmpsAsk(n, more);
    case Then(p, n, next) =>
      var rest := Cons(Sym(';'), LineToks(next, more));
      a := PipelineDoes(p, AmpToks(n, rest));
      AmpsAsk(n, rest);
      var b := LineDoes(next, more);
      AllDoBoth(OpeningsOf(PipelineCmd(p)), a, OpeningsOf(LineCmd(next)), b);
      Grouped(a, b, AskedIn(more));
      a := a + b;
  }

  /** Whatever is parsed, the command has exactly the redirections that were written, in order, and
      each opens its file as its operator says. */
  lemma RedirectionsMean<W>(ts: List<Tok<W>>)
    requires ParseAll(ts).Ok?
    ensures AllDo(OpeningsOf(ParseAll(ts).cmd), AskedIn(ts))
  {
    var l := LineSound(ts);
    var a := LineDoes(l, Nil);
    assert a + AskedIn<W>(Nil) == a;
  }

  // ----- the words -----

  /** All words of all commands, from left to right. */
  function WordsOf<W>(c: Cmd<W>): seq<W> {
    match c
    case Exec(argv) => argv
    case Redir(d, _, _, _, _) => WordsOf(d)
    case Pipe(l, r) => WordsOf(l) + WordsOf(r)
    case Seq(l, r) => WordsOf(l) + WordsOf(r)
    case Back(d) => WordsOf(d)
  }

  /** The words of the tokens that are no files of redirections. */
  function WordsIn<W>(ts: List<Tok<W>>): seq<W> {
    match ts
    case Nil => []
    case Cons(Word(w), rest) => [w] + WordsIn(rest)
    case Cons(Sym(op), rest) =>
      if IsRedirection(op) && rest.Cons? && rest.head.Word? then WordsIn(rest.tail) else WordsIn(rest)
  }

  lemma {:induction false} RedirsSkip<W>(c: Cmd<W>, rs: List<Redirection<W>>, more: List<Tok<W>>)
    requires LegalRedirs(rs)
    ensures WordsIn(RedirToks(rs, more)) == WordsIn(more) && WordsOf(Wrap(c, rs)) == WordsOf(c)
    decreases rs
  {
    match rs
    case Nil =>
    case Cons(r, rest) => RedirsSkip(Redirected(c, r.op, r.file), rest, more);
  }

  lemma {:induction false} ItemsHave<W>(items: List<Item<W>>, more: List<Tok<W>>)
    requires LegalRedirs(Redirs(items))
    ensures WordsIn(ItemToks(items, more)) == Args(items) + WordsIn(more)
    decreases items
  {
    match items
    case Nil => assert [] + WordsIn(more) == WordsIn(more);
    case Cons(Arg(w), rest) =>
      ItemsHave(rest, more);
      Grouped([w], Args(rest), WordsIn(more));
    case Cons(Redirect(r), rest) => ItemsHave(rest, more);
  }

  lemma {:induction false} AmpsSkip<W>(c: Cmd<W>, n: nat, more: List<Tok<W>>)
    ensures WordsIn(AmpToks(n, more)) == WordsIn(more) && WordsOf(Backs(c, n)) == WordsOf(c)
    decreases n
  {
    if n > 0 {
      AmpsSkip(Back(c), n - 1, more);
    }
  }

  lemma {:induction false} ElementHas<W>(e: Element<W>, more: List<Tok<W>>)
    requires LegalElement(e)
    ensures WordsIn(ElementToks(e, more)) == WordsOf(ElementCmd(e)) + WordsIn(more)
    decreases e
  {
    match e
    case Words(items) =>
      ItemsHave(items, more);
      RedirsSkip(Exec(Args(items)), Redirs(items), more);
    case Block(line, redirs) =>
      LineHas(line, Cons(Sym(')'), RedirToks(redirs, more)));
      RedirsSkip(LineCmd(line), redirs, more);
  }

  lemma {:induction false} PipelineHas<W>(p: Pipeline<W>, more: List<Tok<W>>)
    requires LegalPipeline(p)
    ensures WordsIn(PipelineToks(p, more)) == WordsOf(PipelineCmd(p)) + WordsIn(more)
    decreases p
  {
    match p
    case Last(e) => ElementHas(e, more);
    case Piped(e, next) =>
      ElementHas(e, Cons(Sym('|'), PipelineToks(next, more)));
      PipelineHas(next, more);
      Grouped(WordsOf(ElementCmd(e)), WordsOf(PipelineCmd(next)), WordsIn(more));
  }

  lemma {:induction false} LineHas<W>(l: Line<W>, more: List<Tok<W>>)
    requires LegalLine(l)
    ensures WordsIn(LineToks(l, more)) == WordsOf(LineCmd(l)) + WordsIn(more)
    decreases l
  {
    match l
    case End(p, n) =>
      PipelineHas(p, AmpToks(n, more));
      AmpsSkip(PipelineCmd(p), n, more);
    case Then(p, n, next) =>
      var rest := Cons(Sym(';'), LineToks(next, more));
      PipelineHas(p, AmpToks(n, rest));
      AmpsSkip(PipelineCmd(p), n, rest);
      LineHas(next, more);
      Grouped(WordsOf(PipelineCmd(p)), WordsOf(LineCmd(next)), WordsIn(more));
  }

  /** And its words are the words that were written, in order. */
  lemma WordsMean<W>(ts: List<Tok<W>>)
    requires ParseAll(ts).Ok?
    ensures WordsOf(ParseAll(ts).cmd) == WordsIn(ts)
  {
    var l := LineSound(ts);
    LineHas(l, Nil);
    assert WordsOf(LineCmd(l)) + [] == WordsOf(LineCmd(l));
  }

  // ----- operators and errors, on the shortest lines -----

  lemma OneWord<W>(w: W, more: List<Tok<W>>)
    requires Follows(more)
    ensures ParseExec(Cons(Word(w), more)) == Ok(Exec([w]), more)
  {
    var none: Cmd<W> := Exec([]);
    WordRound(none, w, more);
    assert [] + [w] == [w];
    assert ParseRedirs(Exec([w]), more) == Ok(Exec([w]), more);
  }

  lemma OneCommand<W>(w: W, more: List<Tok<W>>)
    requires more == Nil || Peek(more, ")&;")
    ensures ParsePipe(Cons(Word(w), more)) == Ok(Exec([w]), more)
  {
    OneWord(w, more);
  }

  lemma OneLine<W>(w: W, more: List<Tok<W>>)
    requires more == Nil || Peek(more, ")")
    ensures ParseLine(Cons(Word(w), more)) == Ok(Exec([w]), more)
  {
    OneCommand(w, more);
    assert ParseBacks(Exec([w]), more) == Ok(Exec([w]), more);
  }

  /** A bar makes a pipe. */
  lemma BarMeans<W>(a: W, b: W)
    ensures ParseAll(Cons(Word(a), Cons(Sym('|'), Cons(Word(b), Nil)))) == Ok(Pipe(Exec([a]), Exec([b])), Nil)
  {
    var rest := Cons(Sym('|'), Cons(Word(b), Nil));
    var c := Pipe(Exec([a]), Exec([b]));
    OneWord(a, rest);
    OneCommand(b, Nil);
    assert ParsePipe(Cons(Word(a), rest)) == Ok(c, Nil);
    assert ParseBacks(c, Nil) == Ok(c, Nil);
    assert ParseLine(Cons(Word(a), rest)) == Ok(c, Nil);
  }

  /** A semicolon makes a list. */
  lemma SemicolonMeans<W>(a: W, b: W)
    ensures ParseAll(Cons(Word(a), Cons(Sym(';'), Cons(Word(b), Nil)))) == Ok(Seq(Exec([a]), Exec([b])), Nil)
  {
    var rest := Cons(Sym(';'), Cons(Word(b), Nil));
    OneCommand(a, rest);
    OneLine(b, Nil);
    assert ParseBacks(Exec([a]), rest) == Ok(Exec([a]), rest);
    assert ParseLine(Cons(Word(a), rest)) == Ok(Seq(Exec([a]), Exec([b])), Nil);
  }

  /** An ampersand makes a command in the background. */
  lemma AmpersandMeans<W>(a: W)
    ensures ParseAll(Cons(Word(a), Cons(Sym('&'), Nil))) == Ok(Back(Exec([a])), Nil)
  {
    var none: List<Tok<W>> := Nil;
    var rest := Cons(Sym('&'), none);
    OneCommand(a, rest);
    assert ParseBacks(Back(Exec([a])), none) == Ok(Back(Exec([a])), none);
    assert ParseBacks(Exec([a]), rest) == Ok(Back(Exec([a])), none);
    assert ParseLine(Cons(Word(a), rest)) == Ok(Back(Exec([a])), none);
  }

  /** A redirection needs a file. */
  lemma FileMissing<W>(a: W)
    ensures ParseAll(Cons(Word(a), Cons(Sym('<'), Nil))) == Fail(MissingFile)
  {
    var none: Cmd<W> := Exec([]);
    var rest := Cons(Sym('<'), Nil);
    WordRound(none, a, rest);
    assert ParseRedirs(AddArg(none, a), rest) == Fail(MissingFile);
    assert ParseExec(Cons(Word(a), rest)) == Fail(MissingFile);
    assert ParsePipe(Cons(Word(a), rest)) == Fail(MissingFile);
    assert ParseLine(Cons(Word(a), rest)) == Fail(MissingFile);
  }

  /** Brackets come in pairs. */
  lemma BracketMissing<W>(a: W)
    ensures ParseAll(Cons(Sym('('), Cons(Word(a), Nil))) == Fail(MissingParen)
  {
    var ts := Cons(Sym('('), Cons(Word(a), Nil));
    OneLine(a, Nil);
    assert ParseBlock(ts) == Fail(MissingParen);
    assert ParseExec(ts) == Fail(MissingParen);
    assert ParsePipe(ts) == Fail(MissingParen);
    assert ParseLine(ts) == Fail(MissingParen);
  }

  /** A bracket too many is left over. */
  lemma BracketLeft<W>(a: W)
    ensures ParseAll(Cons(Word(a), Cons(Sym(')'), Nil))) == Fail(Leftovers)
  {
    OneLine(a, Cons(Sym(')'), Nil));
  }

  /** A bracket behind a word is out of place. */
  lemma BracketMisplaced<W>(a: W)
    ensures ParseAll(Cons(Word(a), Cons(Sym('('), Nil))) == Fail(Syntax)
  {
    var none: Cmd<W> := Exec([]);
    var rest := Cons(Sym('('), Nil);
    WordRound(none, a, rest);
    assert ParseRedirs(AddArg(none, a), rest) == Ok(AddArg(none, a), rest);
    assert ParseExec(Cons(Word(a), rest)) == Fail(Syntax);
    assert ParsePipe(Cons(Word(a), rest)) == Fail(Syntax);
    assert ParseLine(Cons(Word(a), rest)) == Fail(Syntax);
  }

  function WordToks<W>(ws: seq<W>): List<Tok<W>> {
    if ws == [] then Nil else Cons(Word(ws[0]), WordToks(ws[1..]))
  }

  lemma {:induction false} WordsTooMany<W>(c: Cmd<W>, ws: seq<W>)
    requires IsSimple(c) && Argc(c) < 10 <= Argc(c) + |ws|
    ensures ParseWords(c, WordToks(ws)) == Fail(TooManyArgs)
    decreases |ws|
  {
    if Argc(c) < 9 {
      AddArgCounts(c, ws[0]);
      WordRound(c, ws[0], WordToks(ws[1..]));
      WordsTooMany(AddArg(c, ws[0]), ws[1..]);
    }
  }

  /** Ten words are too many for a command. */
  lemma TenWords<W>(ws: seq<W>)
    requires |ws| >= 10
    ensures ParseAll(WordToks(ws)) == Fail(TooManyArgs)
  {
    var none: Cmd<W> := Exec([]);
    WordsTooMany(none, ws);
    assert ParseExec(WordToks(ws)) == Fail(TooManyArgs);
    assert ParsePipe(WordToks(ws)) == Fail(TooManyArgs);
    assert ParseLine(WordToks(ws)) == Fail(TooManyArgs);
  }
}
