/** C strings, and where one string stands in another. */
module Strings {

  /** The character a C program reads at i: the terminating NUL behind the last one. */
  function CharAt(s: string, i: nat): char {
    if i < |s| then s[i] else '\0'
  }

  /** What a C program takes s for. */
  function UpToNul(s: string): string {
    if s == "" || s[0] == '\0' then "" else [s[0]] + UpToNul(s[1..])
  }

  /** w stands in s at p. */
  predicate Occurs(s: string, p: nat, w: string) {
    p + |w| <= |s| && forall i :: 0 <= i < |w| ==> s[p + i] == w[i]
  }

  lemma OccursSlice(s: string, p: nat, w: string)
    requires Occurs(s, p, w)
    ensures s[p..p + |w|] == w
  {
  }
}
