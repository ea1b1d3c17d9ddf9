/** Paths: their elements, and the walk to the directory that holds the last one. */
module PathWalk {
  import opened Fields
  import opened Options
  import opened Strings

  const MAX_NAME := 27

  // ----- the elements of a path -----

  const SLASH := "/"

  /** What the slashes of a path separate, without the empty parts. */
  function PathElements(s: string): seq<string> {
    Elements(s, SLASH)
  }

  /** A name holds the first 27 characters of an element, all of a shorter one. */
  function Cut(e: string): (w: string)
    ensures w <= e && |w| == if |e| < 27 then |e| else 27
  {
    if |e| > MAX_NAME then e[..MAX_NAME] else e
  }

  /** b begins with the C string of the first n characters of e, n being at most 27. */
  predicate Stores(b: seq<char>, e: string) {
    var n := if |e| < 27 then |e| else 27;
    n < |b| && b[..n] == e[..n] && b[n] == '\0'
  }

  lemma CutStored(b: seq<char>, e: string)
    requires HoldsName(b, Cut(e))
    ensures Stores(b, e)
  {
  }

  // ----- skipelem -----

  /** A buffer that holds the C string w. */
  predicate HoldsName(name: seq<char>, w: string) {
    |w| < |name| && name[..|w|] == w && name[|w|] == '\0'
  }

  /** Past the slashes from p on. */
  method SkipSlashes(s: string, p: nat) returns (q: nat)
    requires p <= |s|
    ensures p <= q <= |s| && Only(s[p..q], SLASH) && CharAt(s, q) != '/'
  {
    q := p;
    while CharAt(s, q) == '/'
      invariant p <= q <= |s| && forall k :: p <= k < q ==> s[k] == '/'
      decreases |s| - q
    {
      q := q + 1;
    }
  }

  /** Copies the next element of the path s, from p on, to name, and returns where the one
      behind it starts: at the end of s if there is none. */
  method SkipElem(s: string, p: nat, name: array<char>) returns (next: Option<nat>)
    requires p <= |s| && '\0' !in s && name.Length == MAX_NAME + 1
    modifies name
    ensures next == None <==> PathElements(s[p..]) == []
    ensures next == None ==> name[..] == old(name[..])
    ensures next.Some? ==>
      && p < next.value <= |s| && PathElements(s[p..]) == [PathElements(s[p..])[0]] + PathElements(s[next.value..])
      && HoldsName(name[..], Cut(PathElements(s[p..])[0])) && '\0' !in PathElements(s[p..])[0]
      && Stores(name[..], PathElements(s[p..])[0])
      && (next.value == |s| <==> PathElements(s[next.value..]) == [])
  {
    var a := SkipSlashes(s, p);
    if CharAt(s, a) == '\0' {
      NothingLeft(s, p, a);
      return None;
    }
    var b := a;
    while CharAt(s, b) != '/' && CharAt(s, b) != '\0'
      invariant a <= b <= |s| && forall k :: a <= k < b ==> s[k] != '/'
      invariant b == a ==> CharAt(s, a) != '/' && CharAt(s, a) != '\0'
      decreases |s| - b
    {
      b := b + 1;
    }
    CopyName(s, a, b, name);
    CutStored(name[..], s[a..b]);
    var q := SkipSlashes(s, b);
    TakenApart(s, p, a, b, q);
    next := Some(q);
  }

  method CopyName(s: string, a: nat, b: nat, name: array<char>)
    requires a <= b <= |s| && name.Length == MAX_NAME + 1
    modifies name
    ensures HoldsName(name[..], Cut(s[a..b]))
  {
    var len := b - a;
    if len >= MAX_NAME {
      forall k | 0 <= k < MAX_NAME {
        name[k] := s[a + k];
      }
      name[MAX_NAME] := '\0';
    } else {
      forall k | 0 <= k < len {
        name[k] := s[a + k];
      }
      name[len] := '\0';
    }
  }

  lemma NothingLeft(s: string, p: nat, a: nat)
    requires p <= a <= |s| && Only(s[p..a], SLASH) && '\0' !in s && CharAt(s, a) == '\0'
    ensures PathElements(s[p..]) == []
  {
    assert a == |s| && s[p..] == s[p..a];
    ElementsSkip(s[p..], "", SLASH);
    assert s[p..] + "" == s[p..];
    ElementsOne("", SLASH);
  }

  lemma TakenApart(s: string, p: nat, a: nat, b: nat, q: nat)
    requires p <= a < b <= q <= |s| && Only(s[p..a], SLASH) && Free(s[a..b], SLASH) && Only(s[b..q], SLASH)
    requires b == q ==> q == |s|
    requires CharAt(s, q) != '/' && '\0' !in s
    ensures PathElements(s[p..]) == [s[a..b]] + PathElements(s[q..])
    ensures q == |s| <==> PathElements(s[q..]) == []
  {
    assert s[p..] == s[p..a] + s[a..b] + s[b..q] + s[q..];
    ElementsHead(s[p..a], s[a..b], s[b..q], s[q..], SLASH);
    if q == |s| {
      ElementsOne("", SLASH);
      assert s[q..] == "";
    } else {
      SomethingLeft(s[q..], SLASH);
    }
  }

  // ----- all elements -----

  /** The C string in a buffer. */
  method CText(buf: array<char>) returns (w: string)
    requires '\0' in buf[..]
    ensures '\0' !in w && HoldsName(buf[..], w)
  {
    var n := 0;
    while buf[n] != '\0'
      invariant n < buf.Length && '\0' !in buf[..n] && '\0' in buf[n..]
      decreases buf.Length - n
    {
      n := n + 1;
    }
    w := buf[..n];
  }

  /** Each as it is stored in a name. */
  function CutAll(es: seq<string>): (names: seq<string>)
    ensures |names| == |es| && forall i :: 0 <= i < |es| ==> names[i] == Cut(es[i])
  {
    if es == [] then [] else [Cut(es[0])] + CutAll(es[1..])
  }

  lemma SameName(b: seq<char>, v: string, w: string)
    requires HoldsName(b, v) && HoldsName(b, w) && '\0' !in v && '\0' !in w
    ensures v == w
  {
    assert b[..|v|] == v && b[..|w|] == w;
  }

  lemma NameTaken(es: seq<string>, names: seq<string>, all: seq<string>)
    requires es != [] && names + CutAll(es) == all
    ensures names + [Cut(es[0])] + CutAll(es[1..]) == all
  {
  }

  /** One round of a walk: the name of the first element left. */
  method NextName(path: string, p: nat, name: array<char>, ghost left: seq<string>) returns (next: Option<nat>, w: string)
    requires p <= |path| && '\0' !in path && name.Length == MAX_NAME + 1 && left == PathElements(path[p..])
    modifies name
    ensures next == None <==> left == []
    ensures next.Some? ==> p < next.value <= |path| && w == Cut(left[0]) && left[1..] == PathElements(path[next.value..])
  {
    next := SkipElem(path, p, name);
    w := "";
    if next.Some? {
      w := CText(name);
      SameName(name[..], w, Cut(left[0]));
    }
  }

  /** skipelem until it finds nothing gives all elements of the path, each cut to a name. */
  method Names(path: string) returns (names: seq<string>)
    requires '\0' !in path
    ensures names == CutAll(PathElements(path))
    ensures |names| == |PathElements(path)|
    ensures forall i :: 0 <= i < |names| ==>
              var e := PathElements(path)[i]; names[i] == if |e| < 27 then e else e[..27]
  {
    var name := new char[MAX_NAME + 1](_ => '\0');
    ghost var left, all := PathElements(path), CutAll(PathElements(path));
    assert path[0..] == path;
    names := [];
    var next, w := NextName(path, 0, name, left);
    while next.Some?
      invariant next == None <==> left == []
      invariant next.Some? ==> next.value <= |path| && w == Cut(left[0]) && left[1..] == PathElements(path[next.value..])
      invariant names + CutAll(left) == all
      decreases if next.Some? then |path| - next.value + 1 else 0
    {
      NameTaken(left, names, all);
      names := names + [w];
      left := left[1..];
      next, w := NextName(path, next.value, name, left);
    }
  }
}
