/** Texts taken apart at delimiters. */
module Fields {

  /** The text between the delimiters d, empty or not. */
  function Split(s: string, d: string): (w: seq<string>)
    ensures w != []
  {
    if s == "" then [""]
    else
      var w, c := Split(s[..|s| - 1], d), s[|s| - 1];
      if c in d then w + [""] else w[|w| - 1 := w[|w| - 1] + [c]]
  }

  function NonEmpty(w: seq<string>): seq<string> {
    if w == [] then []
    else if w[|w| - 1] == "" then NonEmpty(w[..|w| - 1])
    else NonEmpty(w[..|w| - 1]) + [w[|w| - 1]]
  }

  /** What the delimiters separate, without the empty parts. */
  function Elements(s: string, d: string): seq<string> {
    NonEmpty(Split(s, d))
  }

  predicate Free(e: string, d: string) {
    forall k :: 0 <= k < |e| ==> e[k] !in d
  }

  predicate Only(e: string, d: string) {
    forall k :: 0 <= k < |e| ==> e[k] in d
  }

  lemma SplitNext(s: string, c: char, d: string)
    ensures var w := Split(s, d);
            Split(s + [c], d) == if c in d then w + [""] else w[|w| - 1 := w[|w| - 1] + [c]]
  {
    assert (s + [c])[..|s|] == s;
  }

  lemma {:induction false} SplitFree(e: string, d: string)
    requires Free(e, d)
    ensures Split(e, d) == [e]
  {
    if e != "" {
      SplitFree(e[..|e| - 1], d);
      assert e[..|e| - 1] + [e[|e| - 1]] == e;
    }
  }

  lemma LastChanged(u: seq<string>, w: seq<string>, x: string)
    requires w != []
    ensures (u + w)[|u + w| - 1] == w[|w| - 1] && (u + w)[|u + w| - 1 := x] == u + w[|w| - 1 := x]
    ensures u + w + [x] == u + (w + [x])
  {
  }

  /** A delimiter ends what is to its left. */
  lemma {:induction false} SplitAt(a: string, c: char, b: string, d: string)
    requires c in d
    ensures Split(a + [c] + b, d) == Split(a, d) + Split(b, d)
  {
    if b == "" {
      SplitNext(a, c, d);
      assert a + [c] + b == a + [c];
    } else {
      var init, x := b[..|b| - 1], b[|b| - 1];
      SplitAt(a, c, init, d);
      assert init + [x] == b && a + [c] + b == (a + [c] + init) + [x];
      SplitBoth(a + [c] + init, init, Split(a, d), x, d);
    }
  }

  lemma SplitBoth(s: string, t: string, u: seq<string>, x: char, d: string)
    requires Split(s, d) == u + Split(t, d)
    ensures Split(s + [x], d) == u + Split(t + [x], d)
  {
    var w := Split(t, d);
    SplitNext(s, x, d);
    SplitNext(t, x, d);
    LastChanged(u, w, if x in d then "" else w[|w| - 1] + [x]);
  }

  lemma {:induction false} NonEmptyAppend(u: seq<string>, w: seq<string>)
    ensures NonEmpty(u + w) == NonEmpty(u) + NonEmpty(w)
  {
    if w == [] {
      assert u + w == u;
    } else {
      assert (u + w)[..|u + w| - 1] == u + w[..|w| - 1];
      NonEmptyAppend(u, w[..|w| - 1]);
    }
  }

  lemma ElementsAt(a: string, c: char, b: string, d: string)
    requires c in d
    ensures Elements(a + [c] + b, d) == Elements(a, d) + Elements(b, d)
  {
    SplitAt(a, c, b, d);
    NonEmptyAppend(Split(a, d), Split(b, d));
  }

  lemma ElementsOne(e: string, d: string)
    requires Free(e, d)
    ensures Elements(e, d) == if e == "" then [] else [e]
  {
    SplitFree(e, d);
    assert [e][..|[e]| - 1] == [];
    assert e != "" ==> NonEmpty([e]) == NonEmpty([]) + [e];
  }

  /** Delimiters in front mean nothing. */
  lemma {:induction false} ElementsSkip(u: string, b: string, d: string)
    requires Only(u, d)
    ensures Elements(u + b, d) == Elements(b, d)
  {
    if u == "" {
      assert u + b == b;
    } else {
      ElementsSkip(u[1..], b, d);
      assert u + b == "" + [u[0]] + (u[1..] + b);
      ElementsAt("", u[0], u[1..] + b, d);
      ElementsOne("", d);
    }
  }

  lemma ElementsBehind(e: string, v: string, rest: string, d: string)
    requires Free(e, d) && e != "" && Only(v, d) && (v == "" ==> rest == "")
    ensures Elements(e + (v + rest), d) == [e] + Elements(rest, d)
  {
    ElementsOne(e, d);
    if v == "" {
      assert e + (v + rest) == e;
      ElementsOne("", d);
    } else {
      ElementsAfter(e, v[0], v[1..], rest, d);
      Regroup(e, v, rest);
    }
  }

  lemma ElementsAfter(e: string, c: char, w: string, rest: string, d: string)
    requires c in d && Only(w, d)
    ensures Elements(e + [c] + (w + rest), d) == Elements(e, d) + Elements(rest, d)
  {
    ElementsAt(e, c, w + rest, d);
    ElementsSkip(w, rest, d);
  }

  lemma Regroup(e: string, v: string, rest: string)
    requires v != ""
    ensures e + (v + rest) == e + [v[0]] + (v[1..] + rest)
  {
  }

  /** Delimiters, an element, delimiters, and the rest. */
  lemma ElementsHead(u: string, e: string, v: string, rest: string, d: string)
    requires Only(u, d) && Free(e, d) && e != "" && Only(v, d) && (v == "" ==> rest == "")
    ensures Elements(u + e + v + rest, d) == [e] + Elements(rest, d)
  {
    assert u + e + v + rest == u + (e + (v + rest));
    ElementsSkip(u, e + (v + rest), d);
    ElementsBehind(e, v, rest, d);
  }

  /** A text that starts with no delimiter has an element. */
  lemma SomethingLeft(s: string, d: string)
    requires s != "" && s[0] !in d
    ensures Elements(s, d) != []
  {
    var b := ElementEnd(s, 1, d);
    if b == |s| {
      ElementsOne(s, d);
    } else {
      assert s == s[..b] + [s[b]] + s[b + 1..];
      ElementsAt(s[..b], s[b], s[b + 1..], d);
      ElementsOne(s[..b], d);
    }
  }

  function ElementEnd(s: string, p: nat, d: string): (b: nat)
    requires p <= |s| && Free(s[..p], d)
    ensures p <= b <= |s| && Free(s[..b], d) && (b < |s| ==> s[b] in d)
    decreases |s| - p
  {
    if p < |s| && s[p] !in d then ElementEnd(s, p + 1, d) else p
  }
}
