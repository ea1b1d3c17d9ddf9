/** The command language of the shell: what a list of tokens stands for. The parser is given
    on tokens, and its language independently as a grammar. Words can be of any type, so that
    the same parser speaks of positions in a buffer and of strings. */
module ShellGrammar {

  const MAXARGS := 10

  const O_RDONLY := 0x000
  const O_WRONLY := 0x001
  const O_CREATE := 0x200
  const O_TRUNC := 0x400
  const SEEK_SET := 0
  const SEEK_END := 2

  datatype List<+T> = Nil | Cons(head: T, tail: List<T>)

  function Length<T>(l: List<T>): nat {
    match l
    case Nil => 0
    case Cons(_, t) => Length(t) + 1
  }

  /** A token: a word, or one of < > | & ; ( ) and + for >>. */
  datatype Tok<+W> = Word(w: W) | Sym(kind: char)

  datatype Cmd<+W> =
    | Exec(argv: seq<W>)
    | Redir(cmd: Cmd<W>, file: W, mode: int, fd: int, whence: int)
    | Pipe(left: Cmd<W>, right: Cmd<W>)
    | Seq(left: Cmd<W>, right: Cmd<W>)
    | Back(cmd: Cmd<W>)

  datatype Error = NoBlock | MissingFile | MissingParen | Syntax | TooManyArgs | Leftovers

  /** What parsing makes of some tokens: a command and the tokens after it. */
  datatype Parsed<+W> = Ok(cmd: Cmd<W>, rest: List<Tok<W>>) | Fail(error: Error)

  // ----- building commands -----

  function Redirected<W>(c: Cmd<W>, op: char, file: W): Cmd<W> {
    if op == '<' then Redir(c, file, O_RDONLY, 0, SEEK_SET)
    else if op == '>' then Redir(c, file, O_WRONLY + O_CREATE + O_TRUNC, 1, SEEK_SET)
    else Redir(c, file, O_WRONLY + O_CREATE, 1, SEEK_END)
  }

  /** The simple command under some redirections gets one more word. */
  function AddArg<W>(c: Cmd<W>, w: W): Cmd<W> {
    match c
    case Exec(argv) => Exec(argv + [w])
    case Redir(d, _, _, _, _) => c.(cmd := AddArg(d, w))
    case _ => c
  }

  function Argc<W>(c: Cmd<W>): nat {
    match c
    case Exec(argv) => |argv|
    case Redir(d, _, _, _, _) => Argc(d)
    case _ => 0
  }

  function Backs<W>(c: Cmd<W>, n: nat): Cmd<W>
    decreases n
  {
    if n == 0 then c else Backs(Back(c), n - 1)
  }

  // ----- the parser -----

  /** The next token starts with one of the given characters. */
  predicate Peek<W>(ts: List<Tok<W>>, cs: string) {
    ts.Cons? && ts.head.Sym? && (if ts.head.kind == '+' then '>' else ts.head.kind) in cs
  }

  function ParseRedirs<W>(c: Cmd<W>, ts: List<Tok<W>>): (p: Parsed<W>)
    ensures p.Ok? ==> Length(p.rest) <= Length(ts)
    decreases ts
  {
    if !Peek(ts, "<>") then Ok(c, ts)
    else match ts.tail
      case Cons(Word(file), rest) => ParseRedirs(Redirected(c, ts.head.kind, file), rest)
      case _ => Fail(MissingFile)
  }

  /** Redirections, then words with redirections after each. */
  function ParseWords<W>(c: Cmd<W>, ts: List<Tok<W>>): (p: Parsed<W>)
    ensures p.Ok? ==> Length(p.rest) <= Length(ts)
    decreases Length(ts)
  {
    match ParseRedirs(c, ts)
    case Fail(e) => Fail(e)
    case Ok(d, rest) =>
      if Peek(rest, "|)&;") || rest == Nil then Ok(d, rest)
      else if !rest.head.Word? then Fail(Syntax)
      else if Argc(d) + 1 >= MAXARGS then Fail(TooManyArgs)
      else ParseWords(AddArg(d, rest.head.w), rest.tail)
  }

  function ParseBlock<W>(ts: List<Tok<W>>): (p: Parsed<W>)
    requires Peek(ts, "(")
    ensures p.Ok? ==> Length(p.rest) <= Length(ts)
    decreases Length(ts), 0
  {
    match ParseLine(ts.tail)
    case Fail(e) => Fail(e)
    case Ok(c, rest) => if Peek(rest, ")") then ParseRedirs(c, rest.tail) else Fail(MissingParen)
  }

  function ParseExec<W>(ts: List<Tok<W>>): (p: Parsed<W>)
    ensures p.Ok? ==> Length(p.rest) <= Length(ts)
    decreases Length(ts), 1
  {
    if Peek(ts, "(") then ParseBlock(ts) else ParseWords(Exec([]), ts)
  }

  function ParsePipe<W>(ts: List<Tok<W>>): (p: Parsed<W>)
    ensures p.Ok? ==> Length(p.rest) <= Length(ts)
    decreases Length(ts), 2
  {
    match ParseExec(ts)
    case Fail(e) => Fail(e)
    case Ok(c, rest) =>
      if !Peek(rest, "|") then Ok(c, rest)
      else match ParsePipe(rest.tail)
        case Fail(e) => Fail(e)
        case Ok(d, more) => Ok(Pipe(c, d), more)
  }

  /** The loop that wraps a command once for each & sign. */
  function ParseBacks<W>(c: Cmd<W>, ts: List<Tok<W>>): (p: Parsed<W>)
    ensures p.Ok? && Length(p.rest) <= Length(ts)
    decreases ts
  {
    if Peek(ts, "&") then ParseBacks(Back(c), ts.tail) else Ok(c, ts)
  }

  function ParseLine<W>(ts: List<Tok<W>>): (p: Parsed<W>)
    ensures p.Ok? ==> Length(p.rest) <= Length(ts)
    decreases Length(ts), 3
  {
    match ParsePipe(ts)
    case Fail(e) => Fail(e)
    case Ok(c, rest) =>
      var Ok(d, rest') := ParseBacks(c, rest);
      if !Peek(rest', ";") then Ok(d, rest')
      else match ParseLine(rest'.tail)
        case Fail(e) => Fail(e)
        case Ok(l, more) => Ok(Seq(d, l), more)
  }

  function ParseAll<W>(ts: List<Tok<W>>): Parsed<W> {
    match ParseLine(ts)
    case Fail(e) => Fail(e)
    case Ok(c, rest) => if rest == Nil then Ok(c, Nil) else Fail(Leftovers)
  }

  // ----- the grammar -----

  datatype Redirection<+W> = Redirection(op: char, file: W)

  datatype Item<+W> = Arg(w: W) | Redirect(r: Redirection<W>)

  datatype Element<+W> = Words(items: List<Item<W>>) | Block(line: Line<W>, redirs: List<Redirection<W>>)

  datatype Pipeline<+W> = Last(e: Element<W>) | Piped(e: Element<W>, next: Pipeline<W>)

  datatype Line<+W> = End(p: Pipeline<W>, amps: nat) | Then(p: Pipeline<W>, amps: nat, next: Line<W>)

  // The tokens of a sentence, in front of more tokens.

  function RedirToks<W>(rs: List<Redirection<W>>, more: List<Tok<W>>): List<Tok<W>> {
    match rs
    case Nil => more
    case Cons(r, rest) => Cons(Sym(r.op), Cons(Word(r.file), RedirToks(rest, more)))
  }

  function ItemToks<W>(items: List<Item<W>>, more: List<Tok<W>>): List<Tok<W>> {
    match items
    case Nil => more
    case Cons(Arg(w), rest) => Cons(Word(w), ItemToks(rest, more))
    case Cons(Redirect(r), rest) => Cons(Sym(r.op), Cons(Word(r.file), ItemToks(rest, more)))
  }

  function AmpToks<W>(n: nat, more: List<Tok<W>>): List<Tok<W>> {
    if n == 0 then more else Cons(Sym('&'), AmpToks(n - 1, more))
  }

  function ElementToks<W>(e: Element<W>, more: List<Tok<W>>): List<Tok<W>>
    decreases e
  {
    match e
    case Words(items) => ItemToks(items, more)
    case Block(line, redirs) => Cons(Sym('('), LineToks(line, Cons(Sym(')'), RedirToks(redirs, more))))
  }

  function PipelineToks<W>(p: Pipeline<W>, more: List<Tok<W>>): List<Tok<W>>
    decreases p
  {
    match p
    case Last(e) => ElementToks(e, more)
    case Piped(e, next) => ElementToks(e, Cons(Sym('|'), PipelineToks(next, more)))
  }

  function LineToks<W>(l: Line<W>, more: List<Tok<W>>): List<Tok<W>>
    decreases l
  {
    match l
    case End(p, n) => PipelineToks(p, AmpToks(n, more))
    case Then(p, n, next) => PipelineToks(p, AmpToks(n, Cons(Sym(';'), LineToks(next, more))))
  }

  // What a sentence stands for. In a simple command words and redirections may be mixed: the
  // words are the arguments, in order, and later redirections are outermost.

  function Args<W>(items: List<Item<W>>): seq<W> {
    match items
    case Nil => []
    case Cons(Arg(w), rest) => [w] + Args(rest)
    case Cons(Redirect(_), rest) => Args(rest)
  }

  function Redirs<W>(items: List<Item<W>>): List<Redirection<W>> {
    match items
    case Nil => Nil
    case Cons(Arg(_), rest) => Redirs(rest)
    case Cons(Redirect(r), rest) => Cons(r, Redirs(rest))
  }

  function Wrap<W>(c: Cmd<W>, rs: List<Redirection<W>>): Cmd<W>
    decreases rs
  {
    match rs
    case Nil => c
    case Cons(r, rest) => Wrap(Redirected(c, r.op, r.file), rest)
  }

  function ElementCmd<W>(e: Element<W>): Cmd<W> {
    match e
    case Words(items) => Wrap(Exec(Args(items)), Redirs(items))
    case Block(line, redirs) => Wrap(LineCmd(line), redirs)
  }

  function PipelineCmd<W>(p: Pipeline<W>): Cmd<W> {
    match p
    case Last(e) => ElementCmd(e)
    case Piped(e, next) => Pipe(ElementCmd(e), PipelineCmd(next))
  }

  function LineCmd<W>(l: Line<W>): Cmd<W> {
    match l
    case End(p, n) => Backs(PipelineCmd(p), n)
    case Then(p, n, next) => Seq(Backs(PipelineCmd(p), n), LineCmd(next))
  }

  // The operators are the three of the language, and no simple command has more words than
  // argv has room for, one place being left for its end.

  predicate LegalOp(op: char) {
    op == '<' || op == '>' || op == '+'
  }

  predicate LegalRedirs<W>(rs: List<Redirection<W>>) {
    rs.Cons? ==> LegalOp(rs.head.op) && LegalRedirs(rs.tail)
  }

  predicate LegalElement<W>(e: Element<W>) {
    match e
    case Words(items) => LegalRedirs(Redirs(items)) && |Args(items)| < MAXARGS
    case Block(line, redirs) => LegalLine(line) && LegalRedirs(redirs)
  }

  predicate LegalPipeline<W>(p: Pipeline<W>) {
    LegalElement(p.e) && (p.Piped? ==> LegalPipeline(p.next))
  }

  predicate LegalLine<W>(l: Line<W>) {
    LegalPipeline(l.p) && (l.Then? ==> LegalLine(l.next))
  }

  // ----- every sentence is parsed to what it stands for -----

  /** What the loop over words makes of the items: in the order of the text. */
  function ItemsCmd<W>(c: Cmd<W>, items: List<Item<W>>): Cmd<W>
    decreases items
  {
    match items
    case Nil => c
    case Cons(Arg(w), rest) => ItemsCmd(AddArg(c, w), rest)
    case Cons(Redirect(r), rest) => ItemsCmd(Redirected(c, r.op, r.file), rest)
  }

  lemma {:induction false} AddArgInside<W>(c: Cmd<W>, w: W, rs: List<Redirection<W>>)
    ensures AddArg(Wrap(c, rs), w) == Wrap(AddArg(c, w), rs)
    decreases rs
  {
    match rs
    case Nil =>
    case Cons(r, rest) => AddArgInside(Redirected(c, r.op, r.file), w, rest);
  }

  /** Filling in words and wrapping redirections in the order of the text comes to the same as
      all words first and then all redirections. */
  lemma {:induction false} ItemsInOrder<W>(c: Cmd<W>, items: List<Item<W>>)
    requires c.Exec?
    ensures ItemsCmd(c, items) == Wrap(Exec(c.argv + Args(items)), Redirs(items))
  {
    ItemsAround(c, Nil, items);
    assert Append(Nil, Redirs(items)) == Redirs(items);
  }

  function Append<T>(a: List<T>, b: List<T>): List<T> {
    match a
    case Nil => b
    case Cons(h, t) => Cons(h, Append(t, b))
  }

  lemma {:induction false} WrapAppend<W>(c: Cmd<W>, a: List<Redirection<W>>, b: List<Redirection<W>>)
    ensures Wrap(c, Append(a, b)) == Wrap(Wrap(c, a), b)
    decreases a
  {
    match a
    case Nil =>
    case Cons(r, rest) => WrapAppend(Redirected(c, r.op, r.file), rest, b);
  }

  lemma {:induction false} AppendOne<T>(a: List<T>, x: T, b: List<T>)
    ensures Append(Append(a, Cons(x, Nil)), b) == Append(a, Cons(x, b))
  {
    match a
    case Nil =>
    case Cons(_, t) => AppendOne(t, x, b);
  }

  lemma {:induction false} ItemsAround<W>(c: Cmd<W>, rs: List<Redirection<W>>, items: List<Item<W>>)
    requires c.Exec?
    ensures ItemsCmd(Wrap(c, rs), items) == Wrap(Exec(c.argv + Args(items)), Append(rs, Redirs(items)))
    decreases items
  {
    match items
    case Nil =>
      assert c.argv + [] == c.argv;
      AppendNil(rs);
    case Cons(Arg(w), rest) =>
      AddArgInside(c, w, rs);
      ItemsAround(Exec(c.argv + [w]), rs, rest);
      assert c.argv + [w] + Args(rest) == c.argv + ([w] + Args(rest));
    case Cons(Redirect(r), rest) =>
      WrapAppend(c, rs, Cons(r, Nil));
      AppendOne(rs, r, Redirs(rest));
      ItemsAround(c, Append(rs, Cons(r, Nil)), rest);
  }

  lemma {:induction false} AppendNil<T>(a: List<T>)
    ensures Append(a, Nil) == a
  {
    match a
    case Nil =>
    case Cons(_, t) => AppendNil(t);
  }

  /** A simple command, possibly with redirections around it. */
  predicate IsSimple<W>(c: Cmd<W>) {
    c.Exec? || (c.Redir? && IsSimple(c.cmd))
  }

  lemma {:induction false} AddArgCounts<W>(c: Cmd<W>, w: W)
    requires IsSimple(c)
    ensures IsSimple(AddArg(c, w)) && Argc(AddArg(c, w)) == Argc(c) + 1
  {
    if c.Redir? {
      AddArgCounts(c.cmd, w);
    }
  }

  /** Nothing that would still belong to an element. */
  predicate Follows<W>(more: List<Tok<W>>) {
    more == Nil || Peek(more, "|)&;")
  }

  lemma {:induction false} RedirsComplete<W>(c: Cmd<W>, rs: List<Redirection<W>>, more: List<Tok<W>>)
    requires LegalRedirs(rs) && !Peek(more, "<>")
    ensures ParseRedirs(c, RedirToks(rs, more)) == Ok(Wrap(c, rs), more)
    decreases rs
  {
    match rs
    case Nil =>
    case Cons(r, rest) => RedirsComplete(Redirected(c, r.op, r.file), rest, more);
  }

  lemma WordRound<W>(c: Cmd<W>, w: W, rest: List<Tok<W>>)
    requires Argc(c) + 1 < MAXARGS
    ensures ParseWords(c, Cons(Word(w), rest)) == ParseWords(AddArg(c, w), rest)
  {
  }

  lemma RedirRound<W>(c: Cmd<W>, op: char, file: W, rest: List<Tok<W>>)
    requires LegalOp(op)
    ensures ParseWords(c, Cons(Sym(op), Cons(Word(file), rest))) == ParseWords(Redirected(c, op, file), rest)
  {
    var ts: List<Tok<W>> := Cons(Sym(op), Cons(Word(file), rest));
    assert ParseRedirs(c, ts) == ParseRedirs(Redirected(c, op, file), rest);
  }

  lemma {:induction false} ItemsComplete<W>(c: Cmd<W>, items: List<Item<W>>, more: List<Tok<W>>)
    requires IsSimple(c) && LegalRedirs(Redirs(items)) && Argc(c) + |Args(items)| < MAXARGS && Follows(more)
    ensures ParseWords(c, ItemToks(items, more)) == Ok(ItemsCmd(c, items), more)
    decreases items
  {
    match items
    case Nil =>
    case Cons(Arg(w), rest) =>
      AddArgCounts(c, w);
      WordRound(c, w, ItemToks(rest, more));
      ItemsComplete(AddArg(c, w), rest, more);
    case Cons(Redirect(r), rest) =>
      RedirRound(c, r.op, r.file, ItemToks(rest, more));
      ItemsComplete(Redirected(c, r.op, r.file), rest, more);
  }

  lemma {:induction false} ElementComplete<W>(e: Element<W>, more: List<Tok<W>>)
    requires LegalElement(e) && Follows(more)
    ensures ParseExec(ElementToks(e, more)) == Ok(ElementCmd(e), more)
    decreases e
  {
    match e
    case Words(items) =>
      ItemsComplete(Exec([]), items, more);
      ItemsInOrder(Exec([]), items);
      assert [] + Args(items) == Args(items);
    case Block(line, redirs) =>
      LineComplete(line, Cons(Sym(')'), RedirToks(redirs, more)));
      RedirsComplete(LineCmd(line), redirs, more);
  }

  lemma {:induction false} PipelineComplete<W>(p: Pipeline<W>, more: List<Tok<W>>)
    requires LegalPipeline(p) && Follows(more) && !Peek(more, "|")
    ensures ParsePipe(PipelineToks(p, more)) == Ok(PipelineCmd(p), more)
    decreases p
  {
    match p
    case Last(e) => ElementComplete(e, more);
    case Piped(e, next) =>
      ElementComplete(e, Cons(Sym('|'), PipelineToks(next, more)));
      PipelineComplete(next, more);
  }

  lemma {:induction false} BacksComplete<W>(c: Cmd<W>, n: nat, more: List<Tok<W>>)
    requires !Peek(more, "&")
    ensures ParseBacks(c, AmpToks(n, more)) == Ok(Backs(c, n), more)
    decreases n
  {
    if n > 0 {
      BacksComplete(Back(c), n - 1, more);
    }
  }

  lemma {:induction false} LineComplete<W>(l: Line<W>, more: List<Tok<W>>)
    requires LegalLine(l) && (more == Nil || Peek(more, ")"))
    ensures ParseLine(LineToks(l, more)) == Ok(LineCmd(l), more)
    decreases l
  {
    match l
    case End(p, n) =>
      PipelineComplete(p, AmpToks(n, more));
      BacksComplete(PipelineCmd(p), n, more);
    case Then(p, n, next) =>
      var rest := Cons(Sym(';'), LineToks(next, more));
      PipelineComplete(p, AmpToks(n, rest));
      BacksComplete(PipelineCmd(p), n, rest);
      LineComplete(next, more);
  }

  // ----- only sentences are parsed -----

  lemma {:induction false} RedirsSound<W>(c: Cmd<W>, ts: List<Tok<W>>) returns (rs: List<Redirection<W>>)
    requires ParseRedirs(c, ts).Ok?
    ensures var Ok(d, rest) := ParseRedirs(c, ts);
            LegalRedirs(rs) && ts == RedirToks(rs, rest) && d == Wrap(c, rs)
    decreases ts
  {
    if !Peek(ts, "<>") {
      rs := Nil;
    } else {
      var r := Redirection(ts.head.kind, ts.tail.head.w);
      rs := RedirsSound(Redirected(c, r.op, r.file), ts.tail.tail);
      rs := Cons(r, rs);
    }
  }

  lemma {:induction false} WordsSound<W>(c: Cmd<W>, ts: List<Tok<W>>) returns (items: List<Item<W>>)
    requires IsSimple(c) && Argc(c) < MAXARGS && ParseWords(c, ts).Ok?
    ensures var Ok(d, rest) := ParseWords(c, ts);
            && LegalRedirs(Redirs(items)) && Argc(c) + |Args(items)| < MAXARGS
            && ts == ItemToks(items, rest) && d == ItemsCmd(c, items)
    decreases ts
  {
    if Peek(ts, "<>") {
      var r := Redirection(ts.head.kind, ts.tail.head.w);
      items := WordsSound(Redirected(c, r.op, r.file), ts.tail.tail);
      items := Cons(Redirect(r), items);
    } else if Follows(ts) {
      items := Nil;
    } else {
      AddArgCounts(c, ts.head.w);
      items := WordsSound(AddArg(c, ts.head.w), ts.tail);
      items := Cons(Arg(ts.head.w), items);
    }
  }

  lemma {:induction false} ElementSound<W>(ts: List<Tok<W>>) returns (e: Element<W>)
    requires ParseExec(ts).Ok?
    ensures var Ok(d, rest) := ParseExec(ts);
            LegalElement(e) && ts == ElementToks(e, rest) && d == ElementCmd(e)
    decreases Length(ts), 1
  {
    if Peek(ts, "(") {
      var Ok(c, rest) := ParseLine(ts.tail);
      var line := LineSound(ts.tail);
      var redirs := RedirsSound(c, rest.tail);
      e := Block(line, redirs);
    } else {
      var items := WordsSound(Exec([]), ts);
      ItemsInOrder(Exec([]), items);
      assert [] + Args(items) == Args(items);
      e := Words(items);
    }
  }

  lemma {:induction false} PipelineSound<W>(ts: List<Tok<W>>) returns (p: Pipeline<W>)
    requires ParsePipe(ts).Ok?
    ensures var Ok(d, rest) := ParsePipe(ts);
            LegalPipeline(p) && ts == PipelineToks(p, rest) && d == PipelineCmd(p)
    decreases Length(ts), 2
  {
    var e := ElementSound(ts);
    var rest := ParseExec(ts).rest;
    if Peek(rest, "|") {
      var next := PipelineSound(rest.tail);
      p := Piped(e, next);
    } else {
      p := Last(e);
    }
  }

  lemma {:induction false} BacksSound<W>(c: Cmd<W>, ts: List<Tok<W>>) returns (n: nat)
    ensures var Ok(d, rest) := ParseBacks(c, ts); ts == AmpToks(n, rest) && d == Backs(c, n)
    decreases ts
  {
    if Peek(ts, "&") {
      n := BacksSound(Back(c), ts.tail);
      n := n + 1;
    } else {
      n := 0;
    }
  }

  lemma {:induction false} LineSound<W>(ts: List<Tok<W>>) returns (l: Line<W>)
    requires ParseLine(ts).Ok?
    ensures var Ok(d, rest) := ParseLine(ts);
            LegalLine(l) && ts == LineToks(l, rest) && d == LineCmd(l)
    decreases Length(ts), 3
  {
    var p := PipelineSound(ts);
    var Ok(c, rest) := ParsePipe(ts);
    var n := BacksSound(c, rest);
    var rest' := ParseBacks(c, rest).rest;
    if Peek(rest', ";") {
      var next := LineSound(rest'.tail);
      l := Then(p, n, next);
    } else {
      l := End(p, n);
    }
  }

  /** The parser accepts exactly the sentences of the grammar, and builds what they stand
      for. */
  lemma ParserMeetsGrammar<W(!new)>(ts: List<Tok<W>>)
    ensures ParseAll(ts).Ok? <==> exists l: Line<W> :: LegalLine(l) && ts == LineToks(l, Nil)
    ensures forall l: Line<W> :: LegalLine(l) && ts == LineToks(l, Nil) ==> ParseAll(ts) == Ok(LineCmd(l), Nil)
  {
    forall l: Line<W> | LegalLine(l) && ts == LineToks(l, Nil)
      ensures ParseAll(ts) == Ok(LineCmd(l), Nil)
    {
      LineComplete(l, Nil);
    }
    if ParseAll(ts).Ok? {
      var l := LineSound(ts);
      assert LegalLine(l) && ts == LineToks(l, Nil);
    }
  }

  // ----- every command can be written down -----

  /** Commands that some sentence stands for. */
  ghost predicate Writable<W>(c: Cmd<W>) {
    match c
    case Exec(argv) => |argv| < MAXARGS
    case Redir(d, file, _, _, _) => Writable(d) && exists op :: LegalOp(op) && c == Redirected(d, op, file)
    case Pipe(l, r) => Writable(l) && Writable(r)
    case Seq(l, r) => Writable(l) && Writable(r)
    case Back(d) => Writable(d)
  }

  function OpOf<W>(c: Cmd<W>): char
    requires c.Redir?
  {
    if c.mode == O_RDONLY then '<' else if c.whence == SEEK_SET then '>' else '+'
  }

  function WordItems<W>(argv: seq<W>): List<Item<W>> {
    if argv == [] then Nil else Cons(Arg(argv[0]), WordItems(argv[1..]))
  }

  /** The fully parenthesised form of a command. */
  function Sentence<W>(c: Cmd<W>): Line<W>
  {
    match c
    case Exec(argv) => End(Last(Words(WordItems(argv))), 0)
    case Redir(d, file, _, _, _) => End(Last(Block(Sentence(d), Cons(Redirection(OpOf(c), file), Nil))), 0)
    case Pipe(l, r) => End(Piped(Block(Sentence(l), Nil), Last(Block(Sentence(r), Nil))), 0)
    case Seq(l, r) => Then(Last(Block(Sentence(l), Nil)), 0, End(Last(Block(Sentence(r), Nil)), 0))
    case Back(d) => End(Last(Block(Sentence(d), Nil)), 1)
  }

  lemma {:induction false} WordItemsArgs<W>(argv: seq<W>)
    ensures Args(WordItems(argv)) == argv && Redirs(WordItems(argv)) == Nil
  {
    if argv != [] {
      WordItemsArgs(argv[1..]);
    }
  }

  lemma {:induction false} SentenceMeans<W>(c: Cmd<W>)
    requires Writable(c)
    ensures LegalLine(Sentence(c)) && LineCmd(Sentence(c)) == c
    decreases c
  {
    match c
    case Exec(argv) =>
      WordItemsArgs(argv);
      assert ElementCmd(Words(WordItems(argv))) == c;
      assert PipelineCmd(Last(Words(WordItems(argv)))) == c;
    case Redir(d, file, _, _, _) =>
      SentenceMeans(d);
      var rs := Cons(Redirection(OpOf(c), file), Nil);
      assert LegalRedirs(rs.tail) && Wrap(d, rs) == Wrap(Redirected(d, OpOf(c), file), Nil);
      BlockMeans(d, rs);
    case Pipe(l, r) =>
      SentenceMeans(l);
      SentenceMeans(r);
      BlockMeans(l, Nil);
      BlockMeans(r, Nil);
    case Seq(l, r) =>
      SentenceMeans(l);
      SentenceMeans(r);
      BlockMeans(l, Nil);
      BlockMeans(r, Nil);
      assert LineCmd(End(Last(Block(Sentence(r), Nil)), 0)) == r;
    case Back(d) =>
      SentenceMeans(d);
      BlockMeans(d, Nil);
      assert Backs(d, 1) == Backs(Back(d), 0);
  }

  lemma BlockMeans<W>(c: Cmd<W>, rs: List<Redirection<W>>)
    requires LegalLine(Sentence(c)) && LineCmd(Sentence(c)) == c && LegalRedirs(rs)
    ensures var e := Block(Sentence(c), rs);
            && LegalElement(e) && ElementCmd(e) == Wrap(c, rs)
            && LegalPipeline(Last(e)) && PipelineCmd(Last(e)) == Wrap(c, rs)
    ensures Wrap(c, Nil) == c
  {
  }

  /** Parsing undoes printing. */
  lemma ParsePrinted<W>(c: Cmd<W>)
    requires Writable(c)
    ensures ParseAll(LineToks(Sentence(c), Nil)) == Ok(c, Nil)
  {
    SentenceMeans(c);
    LineComplete(Sentence(c), Nil);
  }

  // ----- the parser does not look at words -----

  function MapTok<W, V>(f: W -> V, t: Tok<W>): Tok<V> {
    match t
    case Word(w) => Word(f(w))
    case Sym(k) => Sym(k)
  }

  function MapToks<W, V>(f: W -> V, ts: List<Tok<W>>): List<Tok<V>> {
    match ts
    case Nil => Nil
    case Cons(t, rest) => Cons(MapTok(f, t), MapToks(f, rest))
  }

  function MapArgv<W, V>(f: W -> V, argv: seq<W>): seq<V> {
    seq(|argv|, i requires 0 <= i < |argv| => f(argv[i]))
  }

  function MapCmd<W, V>(f: W -> V, c: Cmd<W>): Cmd<V> {
    match c
    case Exec(argv) => Exec(MapArgv(f, argv))
    case Redir(d, file, mode, fd, whence) => Redir(MapCmd(f, d), f(file), mode, fd, whence)
    case Pipe(l, r) => Pipe(MapCmd(f, l), MapCmd(f, r))
    case Seq(l, r) => Seq(MapCmd(f, l), MapCmd(f, r))
    case Back(d) => Back(MapCmd(f, d))
  }

  function MapParsed<W, V>(f: W -> V, p: Parsed<W>): Parsed<V> {
    match p
    case Ok(c, rest) => Ok(MapCmd(f, c), MapToks(f, rest))
    case Fail(e) => Fail(e)
  }

  lemma {:induction false} AddArgMap<W, V>(f: W -> V, c: Cmd<W>, w: W)
    ensures AddArg(MapCmd(f, c), f(w)) == MapCmd(f, AddArg(c, w))
    ensures Argc(MapCmd(f, c)) == Argc(c)
    decreases c
  {
    match c
    case Exec(argv) => assert MapArgv(f, argv + [w]) == MapArgv(f, argv) + [f(w)];
    case Redir(d, _, _, _, _) => AddArgMap(f, d, w);
    case _ =>
  }

  lemma {:induction false} ParseRedirsMap<W, V>(f: W -> V, c: Cmd<W>, ts: List<Tok<W>>)
    ensures ParseRedirs(MapCmd(f, c), MapToks(f, ts)) == MapParsed(f, ParseRedirs(c, ts))
    decreases ts
  {
    if Peek(ts, "<>") && ts.tail.Cons? && ts.tail.head.Word? {
      ParseRedirsMap(f, Redirected(c, ts.head.kind, ts.tail.head.w), ts.tail.tail);
    }
  }

  lemma {:induction false} ParseWordsMap<W, V>(f: W -> V, c: Cmd<W>, ts: List<Tok<W>>)
    ensures ParseWords(MapCmd(f, c), MapToks(f, ts)) == MapParsed(f, ParseWords(c, ts))
    decreases Length(ts)
  {
    ParseRedirsMap(f, c, ts);
    match ParseRedirs(c, ts)
    case Fail(_) =>
    case Ok(d, rest) =>
      if rest.Cons? && rest.head.Word? {
        AddArgMap(f, d, rest.head.w);
        ParseWordsMap(f, AddArg(d, rest.head.w), rest.tail);
      }
  }

  lemma {:induction false} ParseExecMap<W, V>(f: W -> V, ts: List<Tok<W>>)
    ensures ParseExec(MapToks(f, ts)) == MapParsed(f, ParseExec(ts))
    decreases Length(ts), 1
  {
    if Peek(ts, "(") {
      ParseLineMap(f, ts.tail);
      var p := ParseLine(ts.tail);
      if p.Ok? && Peek(p.rest, ")") {
        ParseRedirsMap(f, p.cmd, p.rest.tail);
      }
    } else {
      assert MapArgv(f, []) == [];
      ParseWordsMap(f, Exec([]), ts);
    }
  }

  lemma PeekMap<W, V>(f: W -> V, ts: List<Tok<W>>, chars: string)
    ensures Peek(MapToks(f, ts), chars) == Peek(ts, chars)
    ensures ts.Cons? ==> MapToks(f, ts).Cons? && MapToks(f, ts).tail == MapToks(f, ts.tail)
  {
  }

  /** One round of ParsePipe: e is the element, p what comes behind a bar. */
  function PipeOf<W>(e: Parsed<W>, p: Parsed<W>): Parsed<W> {
    if e.Fail? || !Peek(e.rest, "|") then e else if p.Fail? then p else Ok(Pipe(e.cmd, p.cmd), p.rest)
  }

  lemma PipeRound<W>(ts: List<Tok<W>>, e: Parsed<W>, p: Parsed<W>)
    requires e == ParseExec(ts) && (e.Ok? && Peek(e.rest, "|") ==> p == ParsePipe(e.rest.tail))
    ensures ParsePipe(ts) == PipeOf(e, p)
  {
  }

  lemma PipeOfMap<W, V>(f: W -> V, e: Parsed<W>, p: Parsed<W>)
    ensures PipeOf(MapParsed(f, e), MapParsed(f, p)) == MapParsed(f, PipeOf(e, p))
  {
    if e.Ok? {
      PeekMap(f, e.rest, "|");
    }
  }

  lemma {:induction false} ParsePipeMap<W, V>(f: W -> V, ts: List<Tok<W>>)
    ensures ParsePipe(MapToks(f, ts)) == MapParsed(f, ParsePipe(ts))
    decreases Length(ts), 2
  {
    var e := ParseExec(ts);
    var p := e;
    ParseExecMap(f, ts);
    if e.Ok? && Peek(e.rest, "|") {
      p := ParsePipe(e.rest.tail);
      ParsePipeMap(f, e.rest.tail);
      PeekMap(f, e.rest, "|");
    }
    PipeMapped(f, ts, e, p);
  }

  lemma PipeMapped<W, V>(f: W -> V, ts: List<Tok<W>>, e: Parsed<W>, p: Parsed<W>)
    requires e == ParseExec(ts) && ParseExec(MapToks(f, ts)) == MapParsed(f, e)
    requires e.Ok? && Peek(e.rest, "|") ==>
               p == ParsePipe(e.rest.tail) && ParsePipe(MapToks(f, e.rest.tail)) == MapParsed(f, p)
    ensures ParsePipe(MapToks(f, ts)) == MapParsed(f, ParsePipe(ts))
  {
    if e.Ok? {
      PeekMap(f, e.rest, "|");
    }
    PipeRound(ts, e, p);
    PipeRound(MapToks(f, ts), MapParsed(f, e), MapParsed(f, p));
    PipeOfMap(f, e, p);
  }

  lemma {:induction false} ParseBacksMap<W, V>(f: W -> V, c: Cmd<W>, ts: List<Tok<W>>)
    ensures ParseBacks(MapCmd(f, c), MapToks(f, ts)) == MapParsed(f, ParseBacks(c, ts))
    decreases ts
  {
    if Peek(ts, "&") {
      ParseBacksMap(f, Back(c), ts.tail);
    }
  }

  /** One round of ParseLine: d is the pipeline with its marks, l what comes behind ;. */
  function LineOf<W>(d: Parsed<W>, l: Parsed<W>): Parsed<W> {
    if d.Fail? || !Peek(d.rest, ";") then d else if l.Fail? then l else Ok(Seq(d.cmd, l.cmd), l.rest)
  }

  /** A pipeline and its marks. */
  function Marked<W>(ts: List<Tok<W>>): (d: Parsed<W>)
    ensures d.Ok? ==> Length(d.rest) <= Length(ts)
    decreases Length(ts), 3
  {
    var p := ParsePipe(ts);
    if p.Ok? then ParseBacks(p.cmd, p.rest) else p
  }

  lemma LineRound<W>(ts: List<Tok<W>>, d: Parsed<W>, l: Parsed<W>)
    requires d == Marked(ts) && (d.Ok? && Peek(d.rest, ";") ==> l == ParseLine(d.rest.tail))
    ensures ParseLine(ts) == LineOf(d, l)
  {
  }

  lemma LineOfMap<W, V>(f: W -> V, d: Parsed<W>, l: Parsed<W>)
    ensures LineOf(MapParsed(f, d), MapParsed(f, l)) == MapParsed(f, LineOf(d, l))
  {
    if d.Ok? {
      PeekMap(f, d.rest, ";");
    }
  }

  lemma MarkedMap<W, V>(f: W -> V, ts: List<Tok<W>>)
    requires ParsePipe(MapToks(f, ts)) == MapParsed(f, ParsePipe(ts))
    ensures Marked(MapToks(f, ts)) == MapParsed(f, Marked(ts))
  {
    var p := ParsePipe(ts);
    if p.Ok? {
      ParseBacksMap(f, p.cmd, p.rest);
    }
  }

  lemma LineMapped<W, V>(f: W -> V, ts: List<Tok<W>>, d: Parsed<W>, l: Parsed<W>)
    requires d == Marked(ts) && Marked(MapToks(f, ts)) == MapParsed(f, d)
    requires d.Ok? && Peek(d.rest, ";") ==>
               l == ParseLine(d.rest.tail) && ParseLine(MapToks(f, d.rest.tail)) == MapParsed(f, l)
    ensures ParseLine(MapToks(f, ts)) == MapParsed(f, ParseLine(ts))
  {
    if d.Ok? {
      PeekMap(f, d.rest, ";");
    }
    LineRound(ts, d, l);
    LineRound(MapToks(f, ts), MapParsed(f, d), MapParsed(f, l));
    LineOfMap(f, d, l);
  }

  /** Renaming the words commutes with parsing. */
  lemma {:induction false} ParseLineMap<W, V>(f: W -> V, ts: List<Tok<W>>)
    ensures ParseLine(MapToks(f, ts)) == MapParsed(f, ParseLine(ts))
    decreases Length(ts), 3
  {
    ParsePipeMap(f, ts);
    MarkedMap(f, ts);
    var d := Marked(ts);
    var l := d;
    if d.Ok? && Peek(d.rest, ";") {
      l := ParseLine(d.rest.tail);
      ParseLineMap(f, d.rest.tail);
    }
    LineMapped(f, ts, d, l);
  }

  lemma ParseAllMap<W, V>(f: W -> V, ts: List<Tok<W>>)
    ensures ParseAll(MapToks(f, ts)) == MapParsed(f, ParseAll(ts))
  {
    ParseLineMap(f, ts);
  }
}
