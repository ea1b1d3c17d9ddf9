/** The pattern matcher of grep: a backtracking search over C strings, and the language that
    a pattern stands for. Strings are given without their terminating NUL. */
module Regex {

  // ----- what a pattern means -----

  /** One character, or any number of repetitions of one. */
  datatype Item = One(c: char) | Star(c: char)

  predicate Hits(c: char, x: char) {
    c == '.' || c == x
  }

  ghost predicate AllHit(c: char, w: string) {
    forall i :: 0 <= i < |w| ==> Hits(c, w[i])
  }

  function Items(re: string): seq<Item> {
    if re == "" || re == "$" then []
    else if |re| >= 2 && re[1] == '*' then [Star(re[0])] + Items(re[2..])
    else [One(re[0])] + Items(re[1..])
  }

  /** The pattern ends in a $ that stands for the end of the text. */
  predicate EndAnchored(re: string) {
    if re == "" then false
    else if re == "$" then true
    else if |re| >= 2 && re[1] == '*' then EndAnchored(re[2..])
    else EndAnchored(re[1..])
  }

  /** The words that a sequence of items describes. */
  ghost predicate InLanguage(items: seq<Item>, w: string) {
    if items == [] then w == ""
    else match items[0]
      case One(c) => w != "" && Hits(c, w[0]) && InLanguage(items[1..], w[1..])
      case Star(c) => exists k :: 0 <= k <= |w| && AllHit(c, w[..k]) && InLanguage(items[1..], w[k..])
  }

  /** text[..j] is a word of the pattern, up to the end of the text if so anchored. */
  ghost predicate HereTo(re: string, text: string, j: int) {
    0 <= j <= |text| && InLanguage(Items(re), text[..j]) && (EndAnchored(re) ==> j == |text|)
  }

  ghost predicate Here(re: string, text: string) {
    exists j :: HereTo(re, text, j)
  }

  /** Some stretch of the text is a word of the pattern, at the start of the text if the
      pattern begins with ^. */
  ghost predicate Matches(re: string, text: string) {
    if re != "" && re[0] == '^' then Here(re[1..], text)
    else exists i :: 0 <= i <= |text| && Here(re, text[i..])
  }

  // ----- how a match starts -----

  ghost predicate HereAfter(c: char, re: string, text: string, k: int) {
    0 <= k <= |text| && AllHit(c, text[..k]) && Here(re, text[k..])
  }

  lemma HereEmpty(text: string)
    ensures Here("", text)
  {
    assert HereTo("", text, 0);
  }

  lemma HereEnd(text: string)
    ensures Here("$", text) <==> text == ""
  {
    if text == "" {
      assert HereTo("$", text, 0);
    }
  }

  lemma HereOne(re: string, text: string)
    requires re != "" && re != "$" && !(|re| >= 2 && re[1] == '*')
    ensures Here(re, text) <==> text != "" && Hits(re[0], text[0]) && Here(re[1..], text[1..])
  {
    assert Items(re)[1..] == Items(re[1..]);
    if Here(re, text) {
      var j :| HereTo(re, text, j);
      assert text[..j][1..] == text[1..][..j - 1];
      assert HereTo(re[1..], text[1..], j - 1);
    }
    if text != "" && Hits(re[0], text[0]) && Here(re[1..], text[1..]) {
      var j :| HereTo(re[1..], text[1..], j);
      assert text[..j + 1][1..] == text[1..][..j];
      assert HereTo(re, text, j + 1);
    }
  }

  lemma HereStar(re: string, text: string)
    requires |re| >= 2 && re[1] == '*'
    ensures Here(re, text) <==> exists k :: HereAfter(re[0], re[2..], text, k)
  {
    var c, rest := re[0], re[2..];
    assert Items(re)[0] == Star(c) && Items(re)[1..] == Items(rest);
    if Here(re, text) {
      var j :| HereTo(re, text, j);
      var w := text[..j];
      var k :| 0 <= k <= |w| && AllHit(c, w[..k]) && InLanguage(Items(rest), w[k..]);
      assert w[..k] == text[..k] && w[k..] == text[k..][..j - k];
      assert HereTo(rest, text[k..], j - k);
      assert HereAfter(c, rest, text, k);
    }
    if k :| HereAfter(c, rest, text, k) {
      var j :| HereTo(rest, text[k..], j);
      var w := text[..k + j];
      assert w[..k] == text[..k] && w[k..] == text[k..][..j];
      assert HereTo(re, text, k + j);
    }
  }

  // ----- the matcher -----

  /** Search for re at the beginning of text. */
  method MatchHere(re: string, text: string) returns (r: bool)
    ensures r <==> Here(re, text)
    decreases |re|, 0
  {
    if re == "" {
      HereEmpty(text);
      return true;
    }
    if |re| >= 2 && re[1] == '*' {
      HereStar(re, text);
      r := MatchStar(re[0], re[2..], text);
      return;
    }
    if re[0] == '$' && |re| == 1 {
      assert re == "$";
      HereEnd(text);
      return text == "";
    }
    HereOne(re, text);
    if text != "" && (re[0] == '.' || re[0] == text[0]) {
      r := MatchHere(re[1..], text[1..]);
      return;
    }
    return false;
  }

  /** Search for c*re at the beginning of text. */
  method MatchStar(c: char, re: string, text: string) returns (r: bool)
    ensures r <==> exists k :: HereAfter(c, re, text, k)
    decreases |re|, 1
  {
    var t := 0;
    while true
      invariant 0 <= t <= |text| && AllHit(c, text[..t])
      invariant forall k :: 0 <= k < t ==> !HereAfter(c, re, text, k)
      decreases |text| - t
    {
      r := MatchHere(re, text[t..]);
      if r {
        assert HereAfter(c, re, text, t);
        return;
      }
      if !(t < |text| && (text[t] == c || c == '.')) {
        forall k | t < k <= |text|
          ensures !AllHit(c, text[..k])
        {
          assert text[..k][t] == text[t];
        }
        return;
      }
      t := t + 1;
    }
  }

  method Match(re: string, text: string) returns (r: bool)
    ensures r <==> Matches(re, text)
  {
    if re != "" && re[0] == '^' {
      r := MatchHere(re[1..], text);
      return;
    }
    var t := 0;
    while true
      invariant 0 <= t <= |text|
      invariant forall i :: 0 <= i < t ==> !Here(re, text[i..])
      decreases |text| - t
    {
      r := MatchHere(re, text[t..]);
      if r || t == |text| {
        return;
      }
      t := t + 1;
    }
  }

  // ----- what the operators come to -----

  predicate Ordinary(c: char) {
    c != '^' && c != '$' && c != '.' && c != '*'
  }

  predicate Plain(re: string) {
    forall i :: 0 <= i < |re| ==> Ordinary(re[i])
  }

  lemma {:induction false} PlainHere(re: string, text: string)
    requires Plain(re)
    ensures Here(re, text) <==> re <= text
  {
    if re == "" {
      HereEmpty(text);
    } else {
      assert Ordinary(re[0]) && (|re| > 1 ==> Ordinary(re[1]));
      HereOne(re, text);
      if text != "" {
        PlainHere(re[1..], text[1..]);
        assert re == [re[0]] + re[1..] && text == [text[0]] + text[1..];
      }
    }
  }

  /** A pattern without operators matches the texts in which it stands. */
  lemma PlainMatches(re: string, text: string)
    requires Plain(re)
    ensures Matches(re, text) <==> exists i :: 0 <= i <= |text| && re <= text[i..]
  {
    forall i | 0 <= i <= |text|
      ensures Here(re, text[i..]) <==> re <= text[i..]
    {
      PlainHere(re, text[i..]);
    }
  }

  /** A dot stands for one character, whatever it is; caret and dollar for start and end. */
  lemma DotMatches(text: string)
    ensures Matches("^.$", text) <==> |text| == 1
  {
    assert "^.$"[1..] == ".$" && ".$"[1..] == "$";
    HereOne(".$", text);
    if text != "" {
      HereEnd(text[1..]);
    }
  }

  /** A star stands for any number of repetitions, none among them: of one character, or of any
      after a dot. */
  lemma StarMatches(c: char, text: string)
    requires c !in "^$*"
    ensures Matches(['^', c, '*', '$'], text) <==> c == '.' || forall i :: 0 <= i < |text| ==> text[i] == c
  {
    var re := [c, '*', '$'];
    assert ['^', c, '*', '$'][1..] == re && re[2..] == "$";
    HereStar(re, text);
    forall k | 0 <= k <= |text|
      ensures Here("$", text[k..]) <==> k == |text|
    {
      HereEnd(text[k..]);
    }
    assert text[..|text|] == text && text[|text|..] == "";
    if c == '.' || forall i :: 0 <= i < |text| ==> text[i] == c {
      assert HereAfter(c, "$", text, |text|);
    }
  }
}
