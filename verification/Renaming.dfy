/** First-occurrence renaming of bound identifiers, and what equal results mean. */
module Renaming {
  import opened Decimals
  import opened Sequences

  /** An identifier occurrence, or the text between two of them. */
  datatype Token = Name(text: string) | Other(text: string)

  function Local(k: nat): string {
    "local" + Decimal(k)
  }

  lemma LocalInjective(i: nat, j: nat)
    requires Local(i) == Local(j)
    ensures i == j
  {
    assert Local(i)[5..] == Decimal(i) && Local(j)[5..] == Decimal(j);
    DecimalInjective(i, j);
  }

  predicate Bound(t: Token, bindings: set<string>) {
    t.Name? && t.text in bindings
  }

  // ---------------------------------------------------------------- order of first use

  function Index(order: seq<string>, name: string): nat {
    if order == [] || order[0] == name then 0 else 1 + Index(order[1..], name)
  }

  /** Bound names by first use, behind those already met. */
  function Order(tokens: seq<Token>, bindings: set<string>, order: seq<string>): seq<string> {
    if tokens == [] then order
    else Order(tokens[1..], bindings,
               if Bound(tokens[0], bindings) && tokens[0].text !in order then order + [tokens[0].text] else order)
  }

  function FirstUses(tokens: seq<Token>, bindings: set<string>): seq<string> {
    Order(tokens, bindings, [])
  }

  function RenameToken(t: Token, bindings: set<string>, order: seq<string>): Token {
    if Bound(t, bindings) then Name(Local(Index(order, t.text))) else t
  }

  /** Every bound name replaced by the number of its first use. */
  function Renamed(tokens: seq<Token>, bindings: set<string>): (out: seq<Token>)
    ensures |out| == |tokens|
    ensures forall i | 0 <= i < |tokens| :: out[i] == RenameToken(tokens[i], bindings, FirstUses(tokens, bindings))
  {
    seq(|tokens|, i requires 0 <= i < |tokens| => RenameToken(tokens[i], bindings, FirstUses(tokens, bindings)))
  }

  lemma {:induction false} IndexSpec(order: seq<string>, name: string)
    ensures name in order ==> Index(order, name) < |order| && order[Index(order, name)] == name
    ensures name !in order ==> Index(order, name) == |order|
  {
    if order != [] { IndexSpec(order[1..], name); }
  }

  lemma {:induction false} IndexAppend(order: seq<string>, more: seq<string>, name: string)
    requires name in order
    ensures Index(order + more, name) == Index(order, name)
  {
    assert (order + more)[0] == order[0];
    if order[0] != name {
      IndexAppend(order[1..], more, name);
      assert (order + more)[1..] == order[1..] + more;
    }
  }

  /** The order only grows, stays free of repeats, and holds exactly the bound names used. */
  lemma {:induction false} OrderSpec(tokens: seq<Token>, bindings: set<string>, order: seq<string>)
    requires Distinct(order)
    ensures var all := Order(tokens, bindings, order);
      order <= all && Distinct(all) &&
      (forall n :: n in all <==> n in order || exists i :: 0 <= i < |tokens| && Bound(tokens[i], bindings) && tokens[i].text == n)
  {
    if tokens != [] {
      var t, rest := tokens[0], tokens[1..];
      var next := if Bound(t, bindings) && t.text !in order then order + [t.text] else order;
      OrderSpec(rest, bindings, next);
      var all := Order(tokens, bindings, order);
      forall n ensures n in all <==> n in order || exists i :: 0 <= i < |tokens| && Bound(tokens[i], bindings) && tokens[i].text == n {
        if i :| 0 <= i < |rest| && Bound(rest[i], bindings) && rest[i].text == n { assert tokens[i + 1] == rest[i]; }
        if i :| 0 <= i < |tokens| && Bound(tokens[i], bindings) && tokens[i].text == n {
          if i > 0 { assert rest[i - 1] == tokens[i]; }
        }
      }
    }
  }

  lemma FirstUsesHold(tokens: seq<Token>, bindings: set<string>, i: nat)
    requires i < |tokens| && Bound(tokens[i], bindings)
    ensures var order := FirstUses(tokens, bindings);
      Distinct(order) && Index(order, tokens[i].text) < |order| && order[Index(order, tokens[i].text)] == tokens[i].text
  {
    OrderSpec(tokens, bindings, []);
    IndexSpec(FirstUses(tokens, bindings), tokens[i].text);
  }

  // ---------------------------------------------------------------- what equal results mean

  predicate Injective(m: map<string, string>) {
    forall x, y | x in m && y in m && m[x] == m[y] :: x == y
  }

  predicate Matches(t: Token, u: Token, m: map<string, string>, a: set<string>, b: set<string>) {
    if Bound(t, a) then u.Name? && t.text in m && u.text == m[t.text] && u.text in b
    else u == t && !Bound(u, b)
  }

  /** `m` renames the bound names of one stream one-to-one to those of the other; all
      else, free names included, is the same. */
  predicate RenamedBy(m: map<string, string>, ts: seq<Token>, a: set<string>, us: seq<Token>, b: set<string>) {
    Injective(m) && |ts| == |us| && forall i | 0 <= i < |ts| :: Matches(ts[i], us[i], m, a, b)
  }

  ghost predicate AlphaEquivalent(ts: seq<Token>, a: set<string>, us: seq<Token>, b: set<string>) {
    exists m :: RenamedBy(m, ts, a, us, b)
  }

  /** The renaming read off two equal results. */
  function Correspondence(from: seq<string>, to: seq<string>): map<string, string> {
    map x | x in from && Index(from, x) < |to| :: to[Index(from, x)]
  }

  lemma CorrespondenceInjective(from: seq<string>, to: seq<string>)
    requires Distinct(to)
    ensures Injective(Correspondence(from, to))
  {
    var m := Correspondence(from, to);
    forall x, y | x in m && y in m && m[x] == m[y] ensures x == y {
      IndexSpec(from, x);
      IndexSpec(from, y);
    }
  }

  /** The streams are equally long, and bound names stand at the same places. */
  predicate SamePlaces(ts: seq<Token>, a: set<string>, us: seq<Token>, b: set<string>) {
    |ts| == |us| && forall i | 0 <= i < |ts| :: Bound(ts[i], a) <==> Bound(us[i], b)
  }

  lemma EqualMeansRenamed(ts: seq<Token>, a: set<string>, us: seq<Token>, b: set<string>)
    requires SamePlaces(ts, a, us, b) && Renamed(ts, a) == Renamed(us, b)
    ensures RenamedBy(Correspondence(FirstUses(ts, a), FirstUses(us, b)), ts, a, us, b)
  {
    var p, q := FirstUses(ts, a), FirstUses(us, b);
    var m := Correspondence(p, q);
    OrderSpec(us, b, []);
    CorrespondenceInjective(p, q);
    forall i | 0 <= i < |ts| ensures Matches(ts[i], us[i], m, a, b) {
      assert Renamed(ts, a)[i] == Renamed(us, b)[i];
      if Bound(ts[i], a) {
        FirstUsesHold(ts, a, i);
        FirstUsesHold(us, b, i);
        LocalInjective(Index(p, ts[i].text), Index(q, us[i].text));
      }
    }
  }

  /** Two orders of first use that correspond name by name. */
  predicate OrdersMatch(p: seq<string>, q: seq<string>, m: map<string, string>) {
    |p| == |q| && forall i | 0 <= i < |p| :: p[i] in m && m[p[i]] == q[i]
  }

  lemma {:induction false} OrdersCorrespond(m: map<string, string>, ts: seq<Token>, a: set<string>, us: seq<Token>, b: set<string>, p: seq<string>, q: seq<string>)
    requires RenamedBy(m, ts, a, us, b) && OrdersMatch(p, q, m)
    ensures OrdersMatch(Order(ts, a, p), Order(us, b, q), m)
    decreases |ts|
  {
    if ts != [] {
      var t, u := ts[0], us[0];
      assert Matches(t, u, m, a, b);
      if Bound(t, a) {
        assert t.text in p <==> u.text in q by {
          if t.text in p { var i :| 0 <= i < |p| && p[i] == t.text; assert q[i] == u.text; }
          if u.text in q { var i :| 0 <= i < |q| && q[i] == u.text; assert m[p[i]] == m[t.text]; }
        }
      }
      var p1 := if Bound(t, a) && t.text !in p then p + [t.text] else p;
      var q1 := if Bound(u, b) && u.text !in q then q + [u.text] else q;
      assert RenamedBy(m, ts[1..], a, us[1..], b) by {
        forall i | 0 <= i < |ts[1..]| ensures Matches(ts[1..][i], us[1..][i], m, a, b) { assert Matches(ts[i + 1], us[i + 1], m, a, b); }
      }
      OrdersCorrespond(m, ts[1..], a, us[1..], b, p1, q1);
    }
  }

  lemma {:induction false} IndexesMatch(p: seq<string>, q: seq<string>, m: map<string, string>, x: string)
    requires OrdersMatch(p, q, m) && Injective(m) && x in m
    ensures Index(p, x) == Index(q, m[x])
  {
    if p != [] && p[0] != x {
      assert m[p[0]] == q[0];
      assert OrdersMatch(p[1..], q[1..], m);
      IndexesMatch(p[1..], q[1..], m, x);
    }
  }

  lemma RenamedMeansEqual(m: map<string, string>, ts: seq<Token>, a: set<string>, us: seq<Token>, b: set<string>)
    requires RenamedBy(m, ts, a, us, b)
    ensures Renamed(ts, a) == Renamed(us, b)
  {
    var p, q := FirstUses(ts, a), FirstUses(us, b);
    OrdersCorrespond(m, ts, a, us, b, [], []);
    forall i | 0 <= i < |ts| ensures Renamed(ts, a)[i] == Renamed(us, b)[i] {
      assert Matches(ts[i], us[i], m, a, b);
      if Bound(ts[i], a) { IndexesMatch(p, q, m, ts[i].text); }
    }
  }

  /** One stream is the other with its bound names renamed one-to-one exactly when the
      results are equal and the bound names stand at the same places. */
  lemma RenamingDecides(ts: seq<Token>, a: set<string>, us: seq<Token>, b: set<string>)
    ensures AlphaEquivalent(ts, a, us, b) <==> Renamed(ts, a) == Renamed(us, b) && SamePlaces(ts, a, us, b)
  {
    if Renamed(ts, a) == Renamed(us, b) && SamePlaces(ts, a, us, b) { EqualMeansRenamed(ts, a, us, b); }
    if m :| RenamedBy(m, ts, a, us, b) {
      RenamedMeansEqual(m, ts, a, us, b);
      forall i | 0 <= i < |ts| ensures Bound(ts[i], a) <==> Bound(us[i], b) { assert Matches(ts[i], us[i], m, a, b); }
    }
  }

  /** No identifier that stays as it is looks like a generated one. */
  ghost predicate NoLocals(tokens: seq<Token>, bindings: set<string>) {
    forall i, k: nat | 0 <= i < |tokens| && tokens[i].Name? && tokens[i].text !in bindings :: tokens[i].text != Local(k)
  }

  /** Without identifiers like the generated ones, equal results are enough. */
  lemma EqualDecides(ts: seq<Token>, a: set<string>, us: seq<Token>, b: set<string>)
    requires NoLocals(ts, a) && NoLocals(us, b)
    ensures Renamed(ts, a) == Renamed(us, b) <==> AlphaEquivalent(ts, a, us, b)
  {
    RenamingDecides(ts, a, us, b);
    if Renamed(ts, a) == Renamed(us, b) {
      assert |Renamed(ts, a)| == |ts| && |Renamed(us, b)| == |us|;
      forall i | 0 <= i < |ts| ensures Bound(ts[i], a) <==> Bound(us[i], b) {
        assert Renamed(ts, a)[i] == Renamed(us, b)[i];
      }
    }
  }

  /** Equal results alone are not: a free `local0` passes for the first bound name. */
  lemma FreeLocalIsConfused()
    ensures var ts, us := [Name("x")], [Name("local0")];
      Renamed(ts, {"x"}) == Renamed(us, {}) && !SamePlaces(ts, {"x"}, us, {}) && !AlphaEquivalent(ts, {"x"}, us, {})
  {
    var ts, us := [Name("x")], [Name("local0")];
    assert ts[1..] == [] && Order(ts, {"x"}, []) == ["x"] by { assert Order(ts[1..], {"x"}, ["x"]) == ["x"]; }
    assert Decimal(0) == "0" && Local(0) == "local0";
    assert Renamed(ts, {"x"})[0] == Name("local0");
    assert Renamed(us, {})[0] == Name("local0");
    assert Renamed(ts, {"x"}) == Renamed(us, {});
    assert Bound(ts[0], {"x"}) && !Bound(us[0], {});
    RenamingDecides(ts, {"x"}, us, {});
  }
}
