/** Sequences without repetition, the sequences that list a set, and texts split at a
    separator. */
module Sequences {
  predicate Distinct<T(==)>(s: seq<T>) {
    forall i, j | 0 <= i < j < |s| :: s[i] != s[j]
  }

  /** Every element of the set, once each, in some order. */
  ghost predicate Lists<T(!new)>(s: seq<T>, all: set<T>) {
    Distinct(s) && forall x :: x in s <==> x in all
  }

  lemma {:induction false} Listed<T(!new)>(all: set<T>) returns (s: seq<T>)
    ensures Lists(s, all)
  {
    if all == {} {
      s := [];
    } else {
      var x :| x in all;
      var rest := Listed(all - {x});
      s := [x] + rest;
    }
  }

  lemma ListedFrom<T(!new)>(first: T, all: set<T>) returns (s: seq<T>)
    requires first in all
    ensures Lists([first] + s, all) && first !in s && Distinct(s) && forall x :: x in s <==> x in all - {first}
  {
    s := Listed(all - {first});
  }

  predicate Free(s: string, c: char) {
    c !in s
  }

  lemma FirstAt(a: string, x: string, c: char)
    requires Free(a, c)
    ensures var s := a + [c] + x; s[|a|] == c && forall i | 0 <= i < |a| :: s[i] != c
  {}

  /** A separator that neither left part holds splits two equal texts alike. */
  lemma SplitAt(a: string, x: string, b: string, y: string, c: char)
    requires Free(a, c) && Free(b, c) && a + [c] + x == b + [c] + y
    ensures a == b && x == y
  {
    FirstAt(a, x, c);
    FirstAt(b, y, c);
    var s, t := a + [c] + x, b + [c] + y;
    assert |a| == |b|;
    assert s[..|a|] == a && t[..|b|] == b;
    assert s[|a| + 1..] == x && t[|b| + 1..] == y;
  }
}
