/** Facts about sequences that the solver does not find by itself where it is busy. */
module Sequences {

  lemma FrontAndLast<T>(s: seq<T>, x: T)
    requires s != []
    ensures s == s[..|s| - 1] + [s[|s| - 1]]
    ensures x in s <==> x in s[..|s| - 1] || x == s[|s| - 1]
  {
    assert s == s[..|s| - 1] + [s[|s| - 1]];
  }

  lemma NextPrefix<T>(s: seq<T>, i: nat)
    requires i < |s|
    ensures s[..i + 1] == s[..i] + [s[i]]
    ensures s[..i + 1][..i] == s[..i]
  {
  }

  lemma Associates<T>(a: seq<T>, b: seq<T>, c: seq<T>)
    ensures (a + b) + c == a + (b + c)
    ensures [] + a == a && a + [] == a
  {
  }
}
