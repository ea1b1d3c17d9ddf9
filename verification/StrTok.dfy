/** strtok: the elements of a C string one call at a time, each ended in place. */
module StrTok {
  import opened Fields
  import opened Options
  import opened Strings

  const NUL := '\0'

  /** The end of the C string at p. */
  function End(b: seq<char>, p: nat): (e: nat)
    requires p <= |b|
    ensures p <= e <= |b| && NUL !in b[p..e] && (e < |b| ==> b[e] == NUL)
    decreases |b| - p
  {
    if p < |b| && b[p] != NUL then End(b, p + 1) else p
  }

  lemma EndAt(b: seq<char>, p: nat, e: nat)
    requires p <= e < |b| && NUL !in b[p..e] && b[e] == NUL
    ensures End(b, p) == e
  {
  }

  /** The delimiters are compared one by one. */
  method IsDelimiter(c: char, delim: string) returns (yes: bool)
    ensures yes <==> c in delim
  {
    for i := 0 to |delim|
      invariant c !in delim[..i]
    {
      if c == delim[i] {
        return true;
      }
    }
    yes := false;
  }

  class Tokenizer {
    const text: array<char>
    /** Where the next call goes on, if there is anything left. */
    var lasts: Option<nat>

    /** Position s, or where the last call stopped. */
    function From(s: Option<nat>): Option<nat>
      reads this
    {
      if s.Some? then s else lasts
    }

    /** The next element of the text from position s on, or from where the last call stopped,
        ends with a NUL then; what is behind it is left for the next call. */
    method Next(s: Option<nat>, delim: string) returns (tok: Option<nat>)
      requires From(s).Some? ==> From(s).value <= text.Length && End(text[..], From(s).value) < text.Length
      requires NUL !in delim
      modifies this, text
      ensures old(From(s)) == None ==> tok == None && lasts == None && text[..] == old(text[..])
      ensures old(From(s)).Some? ==>
                var b, p := old(text[..]), old(From(s)).value;
                var e := End(b, p);
                var es := Elements(b[p..e], delim);
                if es == [] then tok == None && lasts == None && text[..] == b
                else tok.Some? && p <= tok.value && Ended(b, text[..], tok.value, e, es, delim, lasts)
    {
      if From(s) == None {
        return None;
      }
      var p := From(s).value;
      ghost var b, e := text[..], End(text[..], p);
      var t := Skip(p, delim);
      if text[t] == NUL {
        NothingLeft(b, p, t, delim);
        lasts := None;
        return None;
      }
      var k := Scan(t, p, delim);
      if text[k] == NUL {
        lasts := None;
      } else {
        text[k] := NUL;
        lasts := Some(k + 1);
      }
      tok := Some(t);
      assert text[..] == b[k := NUL];
      OneEnded(b, text[..], p, t, k, e, delim);
    }

    /** A call as the loops make it: the first element left is read, the others stay. */
    method Advance(s: Option<nat>, delim: string, ghost left: seq<string>) returns (tok: Option<nat>)
      requires NUL !in delim && Remain(text[..], From(s), delim, left)
      modifies this, text
      ensures Ahead(text[..], tok, lasts, delim, left, old(Limit(text[..], From(s))))
      ensures Kept(old(text[..]), text[..], old(Limit(text[..], From(s))))
    {
      ghost var b, p := text[..], From(s);
      tok := Next(s, delim);
      if tok.Some? {
        assert p.Some?;
        Advanced(b, text[..], p, tok.value, delim, lasts, left);
      }
    }

    /** The loop of the shell over the elements of a line, which stops when argv is full: in the
        end each element up to then is a C string at its place. */
    method Arguments(delim: string, most: nat) returns (argv: seq<nat>)
      requires End(text[..], 0) < text.Length && NUL !in delim
      modifies this, text
      ensures var es := Elements(old(text[..])[0..End(old(text[..]), 0)], delim);
              AllRead(text[..], argv, if |es| <= most then es else es[..most], text.Length)
    {
      ghost var es := Elements(text[0..End(text[..], 0)], delim);
      ghost var done, left := [], es;
      ghost var m: nat := 0;
      argv := [];
      var c := Advance(Some(0), delim, left);
      while c.Some? && |argv| < most
        invariant |argv| <= most && Going(es, done, left, text[..], argv, c, lasts, delim, m)
        decreases |left|
      {
        ghost var b, was, p, n := text[..], argv, c.value, Limit(text[..], lasts);
        argv := argv + [c.value];
        c := Advance(None, delim, left[1..]);
        GoesOn(es, done, left, b, text[..], was, p, c, lasts, delim, m, n);
        done, left, m := done + [left[0]], left[1..], n;
      }
      Gone(es, done, left, text[..], argv, c, lasts, delim, m, most);
    }

    /** Past the delimiters from p on. */
    method Skip(p: nat, delim: string) returns (t: nat)
      requires p <= text.Length && End(text[..], p) < text.Length && NUL !in delim
      ensures p <= t <= End(text[..], p) && Only(text[p..t], delim) && text[t] !in delim
    {
      t := p;
      while true
        invariant p <= t <= End(text[..], p) && forall i :: p <= i < t ==> text[i] in delim
        decreases text.Length - t
      {
        var yes := IsDelimiter(text[t], delim);
        if !yes {
          return;
        }
        t := t + 1;
      }
    }

    /** Where the element at t ends, at a delimiter or at the end of the text from p on. */
    method Scan(t: nat, ghost p: nat, delim: string) returns (k: nat)
      requires p <= t < text.Length && End(text[..], p) < text.Length && t <= End(text[..], p)
      requires text[t] !in delim && text[t] != NUL
      ensures t < k <= End(text[..], p) && Free(text[t..k], delim) && (text[k] in delim || text[k] == NUL)
    {
      k := t + 1;
      assert t < End(text[..], p);
      while true
        invariant t < k <= End(text[..], p) && forall i :: t <= i < k ==> text[i] !in delim
        decreases text.Length - k
      {
        var yes := IsDelimiter(text[k], delim);
        if yes || text[k] == NUL {
          return;
        }
        k := k + 1;
      }
    }
  }

  /** The first of the elements es is a C string at t; the text c behind it, up to e, holds
      the others; nothing else has changed. */
  ghost predicate Ended(b: seq<char>, c: seq<char>, t: nat, e: nat, es: seq<string>, delim: string, lasts: Option<nat>)
    requires es != []
  {
    var k := t + |es[0]|;
    && k <= e < |b| && |c| == |b| && End(c, t) == k && c[t..k] == es[0]
    && if k == e then c == b && lasts == None && es == [es[0]]
       else c == b[k := NUL] && lasts == Some(k + 1) && End(c, k + 1) == e && es == [es[0]] + Elements(c[k + 1..e], delim)
  }

  lemma Parts(b: seq<char>, p: nat, t: nat, k: nat, e: nat, delim: string)
    requires p <= t < k <= e < |b| && b[e] == NUL && NUL !in b[p..e] && NUL !in delim
    requires Only(b[p..t], delim) && Free(b[t..k], delim) && (b[k] in delim || b[k] == NUL)
    ensures k < e ==> b[k] in delim && Elements(b[p..e], delim) == [b[t..k]] + Elements(b[k + 1..e], delim)
    ensures k == e ==> Elements(b[p..e], delim) == [b[t..k]]
    ensures NUL !in b[t..k] && (k < e ==> NUL !in b[k + 1..e])
  {
    if k < e {
      assert b[k] in b[p..e];
      assert b[p..e] == b[p..t] + b[t..k] + [b[k]] + b[k + 1..e];
      ElementsHead(b[p..t], b[t..k], [b[k]], b[k + 1..e], delim);
    } else {
      assert b[p..e] == b[p..t] + b[t..k] + "" + "";
      ElementsHead(b[p..t], b[t..k], "", "", delim);
      ElementsOne("", delim);
    }
  }

  lemma NothingLeft(b: seq<char>, p: nat, t: nat, delim: string)
    requires p <= t < |b| && t <= End(b, p) && Only(b[p..t], delim) && b[t] == NUL
    ensures Elements(b[p..End(b, p)], delim) == []
  {
    ElementsSkip(b[p..t], "", delim);
    assert b[p..t] + "" == b[p..t];
    ElementsOne("", delim);
  }

  lemma OneEnded(b: seq<char>, c: seq<char>, p: nat, t: nat, k: nat, e: nat, delim: string)
    requires p <= t < k <= e < |b| && e == End(b, p) && NUL !in delim && c == b[k := NUL]
    requires Only(b[p..t], delim) && Free(b[t..k], delim) && (b[k] in delim || b[k] == NUL)
    ensures var es := Elements(b[p..e], delim);
            es != [] && Ended(b, c, t, e, es, delim, if b[k] == NUL then None else Some(k + 1))
  {
    Parts(b, p, t, k, e, delim);
    Halves(b, c, t, k, e);
    FirstEnded(b, c, t, k, e, Elements(b[p..e], delim), delim);
  }

  lemma FirstEnded(b: seq<char>, c: seq<char>, t: nat, k: nat, e: nat, es: seq<string>, delim: string)
    requires t < k <= e < |b| && c == b[k := NUL] && (b[k] == NUL <==> k == e)
    requires c[t..k] == b[t..k] && End(c, t) == k && (k == e ==> c == b && es == [b[t..k]])
    requires k < e ==> End(c, k + 1) == e && es == [b[t..k]] + Elements(c[k + 1..e], delim)
    ensures es != [] && Ended(b, c, t, e, es, delim, if b[k] == NUL then None else Some(k + 1))
  {
  }

  /** A NUL at k: what is before it is the C string at t, what is behind it is as it was. */
  lemma Halves(b: seq<char>, c: seq<char>, t: nat, k: nat, e: nat)
    requires t < k <= e < |b| && c == b[k := NUL] && b[e] == NUL
    requires NUL !in b[t..k] && (k < e ==> NUL !in b[k + 1..e])
    ensures c[t..k] == b[t..k] && End(c, t) == k
    ensures k == e ==> c == b
    ensures k < e ==> c[k + 1..e] == b[k + 1..e] && End(c, k + 1) == e
  {
    assert c[t..k] == b[t..k];
    EndAt(c, t, k);
    if k < e {
      assert c[k + 1..e] == b[k + 1..e];
      EndAt(c, k + 1, e);
    }
  }

  // ----- all elements -----

  /** Where a call goes on, if anywhere, and the elements found from there. */
  predicate Remain(b: seq<char>, p: Option<nat>, delim: string, left: seq<string>) {
    if p.None? then left == []
    else p.value <= |b| && End(b, p.value) < |b| && left == Elements(b[p.value..End(b, p.value)], delim)
  }

  function Limit(b: seq<char>, p: Option<nat>): nat {
    if p.None? then |b| else p.value
  }

  /** Nothing before position m has changed. */
  predicate Kept(b: seq<char>, c: seq<char>, m: nat) {
    m <= |c| == |b| && forall i :: 0 <= i < m ==> c[i] == b[i]
  }

  /** The C string at t is w, and it ends before position m. */
  predicate ReadsAs(b: seq<char>, t: nat, w: string, m: nat) {
    t + |w| < m <= |b| && Occurs(b, t, w) && NUL !in w && b[t + |w|] == NUL
  }

  /** Of the elements left the first stands at tok, if there is one, and the others behind
      it; a call goes on from position m at the least. */
  predicate Ahead(b: seq<char>, tok: Option<nat>, lasts: Option<nat>, delim: string, left: seq<string>, m: nat) {
    if left == [] then tok == None && m <= |b|
    else
      && tok.Some? && Remain(b, lasts, delim, left[1..]) && m <= Limit(b, lasts)
      && ReadsAs(b, tok.value, left[0], Limit(b, lasts))
  }

  predicate AllRead(b: seq<char>, toks: seq<nat>, ws: seq<string>, m: nat) {
    m <= |b| && |toks| == |ws| && forall i :: 0 <= i < |toks| ==> ReadsAs(b, toks[i], ws[i], m)
  }

  lemma ReadOne(b: seq<char>, toks: seq<nat>, ws: seq<string>, m: nat, t: nat, w: string, m': nat)
    requires AllRead(b, toks, ws, m) && m <= m' && ReadsAs(b, t, w, m')
    ensures AllRead(b, toks + [t], ws + [w], m')
  {
  }

  /** What is written behind the strings does not concern them. */
  lemma ReadOn(b: seq<char>, c: seq<char>, toks: seq<nat>, ws: seq<string>, m: nat)
    requires AllRead(b, toks, ws, m) && Kept(b, c, m)
    ensures AllRead(c, toks, ws, m)
  {
  }

  lemma ReadLater(b: seq<char>, toks: seq<nat>, ws: seq<string>, m: nat)
    requires AllRead(b, toks, ws, m)
    ensures AllRead(b, toks, ws, |b|)
  {
  }

  lemma EndedKept(b: seq<char>, c: seq<char>, t: nat, e: nat, es: seq<string>, delim: string, lasts: Option<nat>, m: nat)
    requires es != [] && Ended(b, c, t, e, es, delim, lasts) && m <= t
    ensures Kept(b, c, m)
  {
  }

  lemma EndedReads(b: seq<char>, c: seq<char>, t: nat, e: nat, es: seq<string>, delim: string, lasts: Option<nat>)
    requires es != [] && Ended(b, c, t, e, es, delim, lasts) && e < |b| && b[e] == NUL
    ensures ReadsAs(c, t, es[0], Limit(c, lasts))
  {
    SliceOccurs(c, t, es[0]);
  }

  lemma EndedRemain(b: seq<char>, c: seq<char>, t: nat, e: nat, es: seq<string>, delim: string, lasts: Option<nat>)
    requires es != [] && Ended(b, c, t, e, es, delim, lasts)
    ensures Remain(c, lasts, delim, es[1..]) && t <= Limit(c, lasts)
  {
    var k := t + |es[0]|;
    if k == e {
      OthersLeft(es, []);
    } else {
      var others := Elements(c[k + 1..e], delim);
      OthersLeft(es, others);
      RemainAt(c, k + 1, e, delim, others);
    }
  }

  lemma RemainAt(c: seq<char>, q: nat, e: nat, delim: string, others: seq<string>)
    requires q <= e < |c| && End(c, q) == e && others == Elements(c[q..e], delim)
    ensures Remain(c, Some(q), delim, others)
  {
  }

  lemma Advanced(b: seq<char>, c: seq<char>, p: Option<nat>, t: nat, delim: string, lasts: Option<nat>, left: seq<string>)
    requires p.Some? && Remain(b, p, delim, left) && left != [] && p.value <= t
    requires Ended(b, c, t, End(b, p.value), left, delim, lasts)
    ensures Ahead(c, Some(t), lasts, delim, left, p.value) && Kept(b, c, p.value)
  {
    var e := End(b, p.value);
    EndedKept(b, c, t, e, left, delim, lasts, p.value);
    EndedReads(b, c, t, e, left, delim, lasts);
    EndedRemain(b, c, t, e, left, delim, lasts);
  }

  lemma OthersLeft(left: seq<string>, others: seq<string>)
    requires left != [] && left == [left[0]] + others
    ensures left[1..] == others
  {
  }

  lemma SliceOccurs(c: seq<char>, t: nat, w: string)
    requires t + |w| <= |c| && c[t..t + |w|] == w
    ensures Occurs(c, t, w)
  {
    forall i | 0 <= i < |w|
      ensures c[t + i] == w[i]
    {
      assert c[t..t + |w|][i] == w[i];
    }
  }

  /** The loop has put the elements done in argv and has those left before it. */
  predicate Going(es: seq<string>, done: seq<string>, left: seq<string>, b: seq<char>, argv: seq<nat>,
                  tok: Option<nat>, lasts: Option<nat>, delim: string, m: nat) {
    es == done + left && AllRead(b, argv, done, m) && Ahead(b, tok, lasts, delim, left, m)
  }

  lemma GoesOn(es: seq<string>, done: seq<string>, left: seq<string>, b: seq<char>, c: seq<char>, argv: seq<nat>, t: nat,
               tok: Option<nat>, lasts: Option<nat>, delim: string, m: nat, n: nat)
    requires es == done + left && left != [] && AllRead(b, argv, done, m) && m <= n && ReadsAs(b, t, left[0], n)
    requires Kept(b, c, n) && Ahead(c, tok, lasts, delim, left[1..], n)
    ensures Going(es, done + [left[0]], left[1..], c, argv + [t], tok, lasts, delim, n)
  {
    ReadOne(b, argv, done, m, t, left[0], n);
    ReadOn(b, c, argv + [t], done + [left[0]], n);
  }

  lemma Gone(es: seq<string>, done: seq<string>, left: seq<string>, b: seq<char>, argv: seq<nat>,
             tok: Option<nat>, lasts: Option<nat>, delim: string, m: nat, most: nat)
    requires Going(es, done, left, b, argv, tok, lasts, delim, m) && |argv| <= most && (tok == None || |argv| == most)
    ensures AllRead(b, argv, if |es| <= most then es else es[..most], |b|)
  {
    ReadLater(b, argv, done, m);
    assert done == if |es| <= most then es else es[..most];
  }
}
