/** The recogniser's normal form of a module: bound names numbered, token spacing
    removed, the syntax shape appended. */
module CanonicalText {
  import opened Values
  import opened Renaming
  import opened Sequences
  import Spacing
  import SpacingFacts

  /** An identifier occurrence and where its text stands. */
  datatype Use = Use(start: nat, end: nat, name: string)

  /** Occurrences in order, apart from each other, each spelling its name. */
  predicate Spans(source: string, uses: seq<Use>, from: nat) {
    if uses == [] then from <= |source|
    else
      from <= uses[0].start <= uses[0].end <= |source| && source[uses[0].start..uses[0].end] == uses[0].name &&
      Spans(source, uses[1..], uses[0].end)
  }

  /** The source as identifiers and what is between them. */
  function TokensOf(source: string, uses: seq<Use>, from: nat): seq<Token>
    requires Spans(source, uses, from)
  {
    if uses == [] then [Other(source[from..])]
    else [Other(source[from..uses[0].start]), Name(uses[0].name)] + TokensOf(source, uses[1..], uses[0].end)
  }

  function Spell(tokens: seq<Token>): string {
    if tokens == [] then "" else tokens[0].text + Spell(tokens[1..])
  }

  lemma {:induction false} TokensSpellSource(source: string, uses: seq<Use>, from: nat)
    requires Spans(source, uses, from)
    ensures from <= |source| && Spell(TokensOf(source, uses, from)) == source[from..]
  {
    if uses == [] {
      assert TokensOf(source, uses, from)[1..] == [];
    } else {
      var u, rest := uses[0], TokensOf(source, uses[1..], uses[0].end);
      TokensSpellSource(source, uses[1..], u.end);
      var ts := TokensOf(source, uses, from);
      assert ts[0] == Other(source[from..u.start]) && ts[1..][0] == Name(u.name) && ts[1..][1..] == rest;
      assert Spell(ts) == source[from..u.start] + (u.name + Spell(rest));
      assert source[from..] == source[from..u.start] + (source[u.start..u.end] + source[u.end..]);
    }
  }

  // ---------------------------------------------------------------- numbering as names are met

  function Met(t: Token, bindings: set<string>, order: seq<string>): seq<string> {
    if Bound(t, bindings) && t.text !in order then order + [t.text] else order
  }

  function Numbered(tokens: seq<Token>, bindings: set<string>, order: seq<string>): seq<Token> {
    if tokens == [] then []
    else
      var next := Met(tokens[0], bindings, order);
      [RenameToken(tokens[0], bindings, next)] + Numbered(tokens[1..], bindings, next)
  }

  /** A name's number is settled when it is first met. */
  lemma {:induction false} NumberedIsFinal(tokens: seq<Token>, bindings: set<string>, order: seq<string>)
    requires Distinct(order)
    ensures |Numbered(tokens, bindings, order)| == |tokens|
    ensures forall i | 0 <= i < |tokens| ::
      Numbered(tokens, bindings, order)[i] == RenameToken(tokens[i], bindings, Order(tokens, bindings, order))
  {
    if tokens != [] {
      var t, rest, next := tokens[0], tokens[1..], Met(tokens[0], bindings, order);
      NumberedIsFinal(rest, bindings, next);
      OrderSpec(rest, bindings, next);
      var all := Order(tokens, bindings, order);
      assert all == Order(rest, bindings, next);
      assert Numbered(tokens, bindings, order) == [RenameToken(t, bindings, next)] + Numbered(rest, bindings, next);
      SettledNumber(t, bindings, order, all);
      hide *;
      forall i | 0 <= i < |tokens| ensures Numbered(tokens, bindings, order)[i] == RenameToken(tokens[i], bindings, all) {
        if i > 0 { assert tokens[i] == rest[i - 1]; }
      }
    }
  }

  lemma SettledNumber(t: Token, bindings: set<string>, order: seq<string>, all: seq<string>)
    requires Met(t, bindings, order) <= all
    ensures RenameToken(t, bindings, Met(t, bindings, order)) == RenameToken(t, bindings, all)
  {
    var next := Met(t, bindings, order);
    if Bound(t, bindings) {
      assert next + all[|next|..] == all;
      IndexAppend(next, all[|next|..], t.text);
    }
  }

  lemma RenamedIsNumbered(tokens: seq<Token>, bindings: set<string>)
    ensures Renamed(tokens, bindings) == Numbered(tokens, bindings, [])
  {
    NumberedIsFinal(tokens, bindings, []);
  }

  /** The table of names given so far. */
  ghost predicate Holds(names: map<string, string>, order: seq<string>) {
    Distinct(order) && (forall n :: n in names <==> n in order) && (forall n | n in names :: names[n] == Local(Index(order, n))) &&
    |names| == |order|
  }

  lemma Entered(names: map<string, string>, order: seq<string>, name: string)
    requires Holds(names, order) && name !in names
    ensures Holds(names[name := Local(|names|)], order + [name])
  {
    var more := order + [name];
    IndexSpec(more, name);
    forall n | n in names ensures Index(more, n) == Index(order, n) { IndexAppend(order, [name], n); }
    assert Index(more, name) == |order| by {
      forall i | 0 <= i < |order| ensures more[i] != name { assert order[i] in order; }
    }
    assert |names[name := Local(|names|)]| == |names| + 1;
  }

  /** A name's number, given now if it has none yet. */
  method EntryOrInsert(names: map<string, string>, name: string, ghost order: seq<string>)
    returns (normalized: string, more: map<string, string>, ghost next: seq<string>)
    requires Holds(names, order)
    ensures Holds(more, next) && next == (if name in order then order else order + [name])
    ensures normalized == Local(Index(next, name))
  {
    hide *;
    more, next := names, order;
    NameKnown(names, order, name);
    if name !in names {
      Entered(names, order, name);
      more := names[name := Local(|names|)];
      next := order + [name];
    }
    NameKnown(more, next, name);
    normalized := more[name];
  }

  /** The final output, from what is written, what is copied next, and what is to come. */
  ghost function Whole(done: string, source: string, cursor: nat, at: nat, uses: seq<Use>, bindings: set<string>, order: seq<string>): string
    requires Spans(source, uses, at) && cursor <= at <= |source|
  {
    done + source[cursor..at] + Spell(Numbered(TokensOf(source, uses, at), bindings, order))
  }

  lemma SpansFit(source: string, uses: seq<Use>, at: nat)
    requires Spans(source, uses, at)
    ensures at <= |source|
    ensures uses != [] ==> at <= uses[0].start <= uses[0].end <= |source| && Spans(source, uses[1..], uses[0].end)
  {
    if uses != [] { SpansFit(source, uses[1..], uses[0].end); }
  }

  lemma WholeStart(source: string, uses: seq<Use>, bindings: set<string>)
    requires Spans(source, uses, 0)
    ensures Whole("", source, 0, 0, uses, bindings, []) == Spell(Renamed(TokensOf(source, uses, 0), bindings))
  {
    hide Numbered, TokensOf, Renamed, Spell;
    RenamedIsNumbered(TokensOf(source, uses, 0), bindings);
    var all := Spell(Numbered(TokensOf(source, uses, 0), bindings, []));
    assert "" + source[0..0] + all == all;
  }

  lemma WholeEnd(done: string, source: string, cursor: nat, at: nat, bindings: set<string>, order: seq<string>)
    requires Spans(source, [], at) && cursor <= at <= |source|
    ensures Whole(done, source, cursor, at, [], bindings, order) == done + source[cursor..]
  {
    LastGap(source, at, bindings, order);
    hide Spell, Numbered, TokensOf;
    assert source[cursor..at] + source[at..] == source[cursor..];
    assert done + source[cursor..at] + source[at..] == done + (source[cursor..at] + source[at..]);
  }

  /** The rewriting loop: free names are left in the text still to be copied. */
  method RewriteNames(source: string, uses: seq<Use>, bindings: set<string>) returns (rewritten: string)
    requires Spans(source, uses, 0)
    ensures rewritten == Spell(Renamed(TokensOf(source, uses, 0), bindings))
  {
    hide *;
    NoneMet();
    WholeStart(source, uses, bindings);
    rewritten := "";
    var names: map<string, string> := map[];
    var cursor: nat := 0;
    ghost var order: seq<string>, at: nat := [], 0;
    assert uses[0..] == uses;
    for i := 0 to |uses|
      invariant Holds(names, order)
      invariant Spans(source, uses[i..], at) && cursor <= at <= |source|
      invariant Whole(rewritten, source, cursor, at, uses[i..], bindings, order) == Whole("", source, 0, 0, uses, bindings, [])
    {
      var u := uses[i];
      assert uses[i..][0] == u && uses[i..][1..] == uses[i + 1..];
      SpansFit(source, uses[i..], at);
      UseStep(rewritten, source, cursor, at, uses[i..], bindings, order);
      if u.name in bindings {
        var normalized: string;
        normalized, names, order := EntryOrInsert(names, u.name, order);
        rewritten := rewritten + source[cursor..u.start] + normalized;
        cursor := u.end;
      }
      at := u.end;
    }
    assert uses[|uses|..] == [];
    WholeEnd(rewritten, source, cursor, at, bindings, order);
    rewritten := rewritten + source[cursor..];
  }

  /** The output after one more occurrence, with what is still to come. */
  lemma UseStep(done: string, source: string, cursor: nat, at: nat, uses: seq<Use>, bindings: set<string>, order: seq<string>)
    requires uses != [] && Spans(source, uses, at) && cursor <= at <= uses[0].start <= uses[0].end <= |source|
    requires Spans(source, uses[1..], uses[0].end)
    ensures var u := uses[0];
      var next := if u.name in order then order else order + [u.name];
      Whole(done, source, cursor, at, uses, bindings, order) ==
      if u.name in bindings
      then Whole(done + source[cursor..u.start] + Local(Index(next, u.name)), source, u.end, u.end, uses[1..], bindings, next)
      else Whole(done, source, cursor, u.end, uses[1..], bindings, order)
  {
    hide Spell, Numbered, TokensOf, Local, Index, Spans;
    var u := uses[0];
    NextUse(source, uses, at, bindings, order);
    var next := if u.name in bindings && u.name !in order then order + [u.name] else order;
    var more := Spell(Numbered(TokensOf(source, uses[1..], u.end), bindings, next));
    CopyStep(done, source, cursor, at, u, if u.name in bindings then Local(Index(next, u.name)) else u.name, more);
  }

  /** Copying up to an occurrence and past it, its text replaced or kept. */
  lemma CopyStep(done: string, source: string, cursor: nat, at: nat, u: Use, name: string, more: string)
    requires cursor <= at <= u.start <= u.end <= |source| && source[u.start..u.end] == u.name
    ensures done + source[cursor..at] + (source[at..u.start] + name + more) == done + source[cursor..u.start] + name + source[u.end..u.end] + more
    ensures name == u.name ==>
      done + source[cursor..at] + (source[at..u.start] + name + more) == done + source[cursor..u.end] + more
  {
    assert source[cursor..at] + source[at..u.start] == source[cursor..u.start] && source[u.end..u.end] == "";
    assert source[cursor..u.start] + u.name == source[cursor..u.end];
    Regroup(done, source[cursor..at], source[at..u.start], name, more);
  }

  lemma Regroup(a: string, b: string, c: string, d: string, e: string)
    ensures a + b + (c + d + e) == a + (b + c) + d + e
    ensures a + b + (c + d + e) == a + (b + c) + d + "" + e
    ensures a + b + (c + d + e) == a + ((b + c) + d) + e
  {}

  lemma NoneMet()
    ensures Holds(map[], [])
  {}

  lemma NameKnown(names: map<string, string>, order: seq<string>, name: string)
    requires Holds(names, order)
    ensures name in names <==> name in order
    ensures name in names ==> names[name] == Local(Index(order, name))
  {}

  /** One identifier further. */
  lemma NextUse(source: string, uses: seq<Use>, at: nat, bindings: set<string>, order: seq<string>)
    requires uses != [] && Spans(source, uses, at)
    ensures var u := uses[0];
      var next := if u.name in bindings && u.name !in order then order + [u.name] else order;
      at <= u.start <= u.end <= |source| && source[u.start..u.end] == u.name && Spans(source, uses[1..], u.end) &&
      Spell(Numbered(TokensOf(source, uses, at), bindings, order)) ==
      source[at..u.start] + (if u.name in bindings then Local(Index(next, u.name)) else u.name) +
      Spell(Numbered(TokensOf(source, uses[1..], u.end), bindings, next))
  {
    var u := uses[0];
    var ts, rest := TokensOf(source, uses, at), TokensOf(source, uses[1..], u.end);
    assert ts == [Other(source[at..u.start]), Name(u.name)] + rest;
    NumberedTwo(source[at..u.start], u.name, rest, bindings, order);
  }

  lemma NumberedTwo(gap: string, name: string, rest: seq<Token>, bindings: set<string>, order: seq<string>)
    ensures var next := Met(Name(name), bindings, order);
      Spell(Numbered([Other(gap), Name(name)] + rest, bindings, order)) ==
      gap + RenameToken(Name(name), bindings, next).text + Spell(Numbered(rest, bindings, next))
  {
    var next := Met(Name(name), bindings, order);
    var ts, tail := [Other(gap), Name(name)] + rest, [Name(name)] + rest;
    var renamed, more := RenameToken(Name(name), bindings, next), Numbered(rest, bindings, next);
    assert ts[0] == Other(gap) && ts[1..] == tail && tail[0] == Name(name) && tail[1..] == rest;
    assert Numbered(tail, bindings, order) == [renamed] + more;
    assert Numbered(ts, bindings, order) == [Other(gap)] + ([renamed] + more);
    SpellFirst(renamed, more);
    SpellFirst(Other(gap), [renamed] + more);
    assert gap + (renamed.text + Spell(more)) == gap + renamed.text + Spell(more);
  }

  lemma SpellFirst(t: Token, rest: seq<Token>)
    ensures Spell([t] + rest) == t.text + Spell(rest)
  {
    assert ([t] + rest)[1..] == rest;
  }

  lemma LastGap(source: string, at: nat, bindings: set<string>, order: seq<string>)
    requires at <= |source|
    ensures Spans(source, [], at) && Spell(Numbered(TokensOf(source, [], at), bindings, order)) == source[at..]
  {
    var ts := TokensOf(source, [], at);
    assert ts[1..] == [] && Numbered(ts[1..], bindings, order) == [];
    assert Numbered(ts, bindings, order) == [ts[0]];
    assert [ts[0]][1..] == [];
  }

  // ---------------------------------------------------------------- the whole normal form

  function Canonical(tokens: seq<Token>, bindings: set<string>, shape: string, k: Spacing.Classes): string {
    Spacing.Strip(Spell(Renamed(tokens, bindings)), k) + shape
  }

  method Canonicalise(source: string, uses: seq<Use>, bindings: set<string>, shape: string, k: Spacing.Classes) returns (out: string)
    requires Spans(source, uses, 0)
    ensures out == Canonical(TokensOf(source, uses, 0), bindings, shape, k)
  {
    var rewritten := RewriteNames(source, uses, bindings);
    out := Spacing.StripSpaces(rewritten, k);
    out := out + shape;
  }

  /** A module and any one-to-one renaming of its bound names have one normal form. */
  lemma RenamedModulesAgree(ts: seq<Token>, a: set<string>, us: seq<Token>, b: set<string>, shape: string, k: Spacing.Classes)
    requires AlphaEquivalent(ts, a, us, b)
    ensures Canonical(ts, a, shape, k) == Canonical(us, b, shape, k)
  {
    var m :| RenamedBy(m, ts, a, us, b);
    RenamedMeansEqual(m, ts, a, us, b);
  }

  /** Equal normal forms with shapes of one length are exactly equal shapes behind texts of
      the same words, literals and other characters in the same order. */
  lemma EqualFormsHaveEqualLexemes(ts: seq<Token>, a: set<string>, us: seq<Token>, b: set<string>, s1: string, s2: string, k: Spacing.Classes)
    requires Spacing.Proper(k)
    ensures Canonical(ts, a, s1, k) == Canonical(us, b, s2, k) && |s1| == |s2| <==>
      s1 == s2 && Spacing.Lex(Spell(Renamed(ts, a)), k) == Spacing.Lex(Spell(Renamed(us, b)), k)
  {
    var x, y := Spacing.Strip(Spell(Renamed(ts, a)), k), Spacing.Strip(Spell(Renamed(us, b)), k);
    assert (x + s1)[..|x|] == x && (y + s2)[..|y|] == y && (x + s1)[|x|..] == s1 && (y + s2)[|y|..] == s2;
    SpacingFacts.StripDecides(Spell(Renamed(ts, a)), Spell(Renamed(us, b)), k);
  }

  // ---------------------------------------------------------------- where the text ends and the shape begins

  /** The first bracket that is opened closes at the very end, and not before; brackets in
      literals do not count. */
  predicate OneCall(text: string, depth: nat, quoted: Option<char>, escaped: bool) {
    text != "" &&
    match quoted
    case Some(q) =>
      OneCall(text[1..], depth, if !escaped && text[0] == q then None else quoted, !escaped && text[0] == '\\')
    case None =>
      if Spacing.IsQuote(text[0]) then OneCall(text[1..], depth, Some(text[0]), false)
      else if text[0] == '(' then OneCall(text[1..], depth + 1, None, false)
      else if text[0] != ')' then OneCall(text[1..], depth, None, false)
      else if depth <= 1 then depth == 1 && text[1..] == ""
      else OneCall(text[1..], depth - 1, None, false)
  }

  /** No such text goes on behind another one. */
  lemma {:induction false} OneCallEnds(x: string, more: string, depth: nat, quoted: Option<char>, escaped: bool)
    requires OneCall(x, depth, quoted, escaped) && OneCall(x + more, depth, quoted, escaped)
    ensures more == ""
  {
    assert (x + more)[0] == x[0] && (x + more)[1..] == x[1..] + more;
    match quoted
    case Some(q) =>
      OneCallEnds(x[1..], more, depth, if !escaped && x[0] == q then None else quoted, !escaped && x[0] == '\\');
    case None =>
      if Spacing.IsQuote(x[0]) {
        OneCallEnds(x[1..], more, depth, Some(x[0]), false);
      } else if x[0] == '(' {
        OneCallEnds(x[1..], more, depth + 1, None, false);
      } else if x[0] != ')' {
        OneCallEnds(x[1..], more, depth, None, false);
      } else if depth > 1 {
        OneCallEnds(x[1..], more, depth - 1, None, false);
      }
  }

  /** A module is one call of its definer. */
  predicate IsCall(ts: seq<Token>, a: set<string>, k: Spacing.Classes) {
    OneCall(Spacing.Strip(Spell(Renamed(ts, a)), k), 0, None, false)
  }

  /** So the shape behind it begins at the same place in both of two equal normal forms. */
  lemma CallsPartFromShapes(ts: seq<Token>, a: set<string>, us: seq<Token>, b: set<string>, s1: string, s2: string, k: Spacing.Classes)
    requires IsCall(ts, a, k) && IsCall(us, b, k) && Canonical(ts, a, s1, k) == Canonical(us, b, s2, k)
    ensures |s1| == |s2|
  {
    var x, y := Spacing.Strip(Spell(Renamed(ts, a)), k), Spacing.Strip(Spell(Renamed(us, b)), k);
    hide Spacing.Strip, Spell, Renamed, OneCall;
    var all := x + s1;
    assert all == y + s2;
    if |x| <= |y| {
      assert y == x + y[|x|..] by { assert all[..|x|] == x && all[..|y|] == y; }
      OneCallEnds(x, y[|x|..], 0, None, false);
    } else {
      assert x == y + x[|y|..] by { assert all[..|x|] == x && all[..|y|] == y; }
      OneCallEnds(y, x[|y|..], 0, None, false);
    }
  }
}
