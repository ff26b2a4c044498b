/** What equal normal forms say of two modules: as streams of words, literals and other
    characters, one is the other with its bound names renamed one-to-one. */
module CanonicalModules {
  import opened Values
  import opened Renaming
  import opened CanonicalText
  import opened Spacing
  import SpacingFacts

  // ---------------------------------------------------------------- occurrences as whole words

  /** Text between two occurrences: every literal in it is closed, and no word runs on into
      the occurrence behind it. */
  predicate ClosedGap(g: string, k: Classes)
    decreases |g|
  {
    if g == "" then true
    else if IsQuote(g[0]) then Closes(g[1..], g[0], false) && ClosedGap(g[1 + LiteralLength(g[1..], g[0], false)..], k)
    else if !k.space(g[0]) && k.word(g[0]) then RunLength(g, k) < |g| && RunLength(g, k) > 0 && ClosedGap(g[RunLength(g, k)..], k)
    else ClosedGap(g[1..], k)
  }

  predicate IsWord(n: string, k: Classes) {
    n != "" && forall c | c in n :: k.word(c)
  }

  predicate StartsApart(g: string, k: Classes) {
    g != "" ==> !k.word(g[0])
  }

  /** Gap, occurrence, gap, ..., gap: the occurrences are whole words outside literals. */
  predicate Fits(ts: seq<Token>, k: Classes)
    decreases |ts|
  {
    ts != [] && ts[0].Other? &&
    (|ts| == 1 ||
     (|ts| >= 3 && ts[1].Name? && ClosedGap(ts[0].text, k) && IsWord(ts[1].text, k) && StartsApart(ts[2].text, k) &&
      (|ts| > 3 ==> ts[2].text != "") && Fits(ts[2..], k)))
  }

  /** The numbered names are words too. */
  ghost predicate LocalsAreWords(k: Classes) {
    forall i: nat :: IsWord(Local(i), k)
  }

  // ---------------------------------------------------------------- lexing with words behind

  predicate GapWithin(g: string, k: Classes) {
    g != "" && (IsQuote(g[0]) || (k.space(g[0]) && GapWithin(g[1..], k)))
  }

  /** The lexemes of a gap that a word follows. */
  function GapLex(g: string, k: Classes): seq<Lexeme>
    requires ClosedGap(g, k)
    decreases |g|
  {
    if g == "" then []
    else if IsQuote(g[0]) then
      var n := 1 + LiteralLength(g[1..], g[0], false);
      [Quoted(g[..n])] + GapLex(g[n..], k)
    else if k.space(g[0]) then GapLex(g[1..], k)
    else if k.word(g[0]) then
      var n := RunLength(g, k);
      [Word(g[..n], k.space(g[n]) && GapWithin(g[n..], k))] + GapLex(g[n..], k)
    else [Mark(g[0])] + GapLex(g[1..], k)
  }

  lemma {:induction false} LiteralBefore(g: string, x: string, q: char, escaped: bool)
    requires Closes(g, q, escaped)
    ensures Closes(g + x, q, escaped) && LiteralLength(g + x, q, escaped) == LiteralLength(g, q, escaped)
    decreases |g|
  {
    LiteralStep(g, q, escaped);
    LiteralStep(g + x, q, escaped);
    assert (g + x)[1..] == g[1..] + x && (g + x)[0] == g[0];
    hide Closes, LiteralLength;
    if escaped || g[0] == '\\' || g[0] != q {
      LiteralBefore(g[1..], x, q, !escaped && g[0] == '\\');
    }
  }

  lemma {:induction false} RunBefore(g: string, x: string, k: Classes)
    requires RunLength(g, k) < |g|
    ensures RunLength(g + x, k) == RunLength(g, k)
  {
    assert (g + x)[0] == g[0];
    if k.word(g[0]) {
      RunBefore(g[1..], x, k);
      assert (g + x)[1..] == g[1..] + x;
    }
  }

  lemma {:induction false} AheadBefore(g: string, x: string, k: Classes)
    requires x != "" && !IsQuote(x[0]) && !k.space(x[0])
    ensures GapAhead(g + x, k) == GapWithin(g, k)
  {
    if g == "" {
      assert g + x == x;
    } else {
      assert (g + x)[0] == g[0] && (g + x)[1..] == g[1..] + x;
      AheadBefore(g[1..], x, k);
    }
  }

  /** A gap is lexed alike whatever word follows it. */
  lemma {:induction false} LexBehindGap(g: string, x: string, k: Classes)
    requires Proper(k) && ClosedGap(g, k) && x != "" && k.word(x[0])
    ensures Lex(g + x, k) == GapLex(g, k) + Lex(x, k)
    decreases |g|
  {
    hide *;
    if g == "" {
      NoGap(k);
      assert g + x == x;
    } else {
      GapStep(g, k);
      assert (g + x)[0] == g[0] && (g + x)[1..] == g[1..] + x;
      if IsQuote(g[0]) {
        BehindLiteral(g, x, k);
      } else if k.space(g[0]) {
        LexSpace(g + x, k);
        LexBehindGap(g[1..], x, k);
      } else if k.word(g[0]) {
        BehindRun(g, x, k);
      } else {
        LexMark("", g + x, k);
        LexBehindGap(g[1..], x, k);
        assert [Mark(g[0])] + GapLex(g[1..], k) + Lex(x, k) == [Mark(g[0])] + (GapLex(g[1..], k) + Lex(x, k));
      }
    }
  }

  lemma NoGap(k: Classes)
    ensures ClosedGap("", k) && GapLex("", k) == []
  {}

  lemma GapStep(g: string, k: Classes)
    requires ClosedGap(g, k) && g != ""
    ensures !IsQuote(g[0]) && (k.space(g[0]) || !k.word(g[0])) ==> ClosedGap(g[1..], k)
    ensures !IsQuote(g[0]) && k.space(g[0]) ==> GapLex(g, k) == GapLex(g[1..], k)
    ensures !IsQuote(g[0]) && !k.space(g[0]) && !k.word(g[0]) ==> GapLex(g, k) == [Mark(g[0])] + GapLex(g[1..], k)
  {}

  /** A literal or a word at the start of a gap. */
  lemma GapHead(g: string, k: Classes)
    requires Proper(k) && ClosedGap(g, k) && g != ""
    ensures IsQuote(g[0]) ==>
      var n := 1 + LiteralLength(g[1..], g[0], false);
      n <= |g| && Closes(g[1..], g[0], false) && ClosedGap(g[n..], k) && GapLex(g, k) == [Quoted(g[..n])] + GapLex(g[n..], k)
    ensures k.word(g[0]) ==>
      var n := RunLength(g, k);
      0 < n < |g| && ClosedGap(g[n..], k) && !IsQuote(g[0]) &&
      GapLex(g, k) == [Word(g[..n], k.space(g[n]) && GapWithin(g[n..], k))] + GapLex(g[n..], k)
  {
    hide LiteralLength, Closes, GapWithin;
  }

  lemma Behind(g: string, x: string, n: nat)
    requires n <= |g|
    ensures (g + x)[..n] == g[..n] && (g + x)[n..] == g[n..] + x
    ensures n < |g| ==> (g + x)[n] == g[n]
  {}

  lemma {:induction false} BehindLiteral(g: string, x: string, k: Classes)
    requires Proper(k) && ClosedGap(g, k) && x != "" && k.word(x[0]) && g != "" && IsQuote(g[0])
    ensures Lex(g + x, k) == GapLex(g, k) + Lex(x, k)
    decreases |g|, 0
  {
    hide *;
    GapHead(g, k);
    var n := 1 + LiteralLength(g[1..], g[0], false);
    LiteralBefore(g[1..], x, g[0], false);
    Behind(g, x, 0);
    Behind(g, x, 1);
    Behind(g, x, n);
    LexLiteral("", g + x, k);
    LexBehindGap(g[n..], x, k);
    assert [Quoted(g[..n])] + GapLex(g[n..], k) + Lex(x, k) == [Quoted(g[..n])] + (GapLex(g[n..], k) + Lex(x, k));
  }

  lemma {:induction false} BehindRun(g: string, x: string, k: Classes)
    requires Proper(k) && ClosedGap(g, k) && x != "" && k.word(x[0]) && g != "" && k.word(g[0])
    ensures Lex(g + x, k) == GapLex(g, k) + Lex(x, k)
    decreases |g|, 0
  {
    hide *;
    GapHead(g, k);
    var n := RunLength(g, k);
    RunBefore(g, x, k);
    Behind(g, x, 0);
    Behind(g, x, n);
    LexWord("", g + x, k);
    NotASpace(x, k);
    AheadBefore(g[n..], x, k);
    LexBehindGap(g[n..], x, k);
    var w := [Word(g[..n], k.space(g[n]) && GapWithin(g[n..], k))];
    assert w + GapLex(g[n..], k) + Lex(x, k) == w + (GapLex(g[n..], k) + Lex(x, k));
  }

  lemma NotASpace(x: string, k: Classes)
    requires Proper(k) && x != "" && k.word(x[0])
    ensures !IsQuote(x[0]) && !k.space(x[0])
  {}

  // ---------------------------------------------------------------- the lexemes of a module

  /** Whether space, and then a literal or the end, follows an occurrence. */
  predicate GapBehind(ts: seq<Token>, k: Classes)
    requires ts != []
  {
    var g := ts[0].text;
    g != "" && k.space(g[0]) && (if |ts| == 1 then GapAhead(g, k) else GapWithin(g, k))
  }

  function Lexemes(ts: seq<Token>, k: Classes): seq<Lexeme>
    requires Fits(ts, k)
    decreases |ts|
  {
    if |ts| == 1 then Lex(ts[0].text, k)
    else GapLex(ts[0].text, k) + ([Word(ts[1].text, GapBehind(ts[2..], k))] + Lexemes(ts[2..], k))
  }

  lemma SpellTwo(ts: seq<Token>)
    requires |ts| >= 2
    ensures Spell(ts) == ts[0].text + (ts[1].text + Spell(ts[2..]))
  {
    assert ts[1..][0] == ts[1] && ts[1..][1..] == ts[2..];
  }

  lemma SpellOne(ts: seq<Token>)
    requires |ts| == 1
    ensures Spell(ts) == ts[0].text
  {
    assert ts[1..] == [] && Spell(ts[1..]) == "";
  }

  lemma FitsParts(ts: seq<Token>, k: Classes)
    requires Fits(ts, k)
    ensures ts != [] && ts[0].Other? && (|ts| == 1 || |ts| >= 3)
    ensures |ts| >= 3 ==>
      ts[1].Name? && ClosedGap(ts[0].text, k) && IsWord(ts[1].text, k) && Fits(ts[2..], k) && NextApart(ts[2..], k)
  {}

  /** The gap behind an occurrence keeps it apart from what follows. */
  predicate NextApart(ts: seq<Token>, k: Classes) {
    ts != [] && StartsApart(ts[0].text, k) && (|ts| > 1 ==> ts[0].text != "")
  }

  lemma WordBehind(n: string, rest: string, k: Classes)
    requires Proper(k) && IsWord(n, k)
    ensures n + rest != "" && k.word((n + rest)[0]) && !IsQuote((n + rest)[0]) && !k.space((n + rest)[0])
    ensures (n + rest)[..|n|] == n && (n + rest)[|n|..] == rest
  {
    assert (n + rest)[0] == n[0] && n[0] in n;
  }

  lemma RestApart(ts: seq<Token>, k: Classes)
    requires Proper(k) && Fits(ts, k) && NextApart(ts, k)
    ensures var rest := Spell(ts);
      StartsApart(rest, k) && (rest != "" && k.space(rest[0]) && GapAhead(rest, k) <==> GapBehind(ts, k))
  {
    FitsParts(ts, k);
    hide Fits, GapAhead, GapWithin, ClosedGap;
    if |ts| == 1 {
      SpellOne(ts);
    } else {
      SpellTwo(ts);
      var x := ts[1].text + Spell(ts[2..]);
      WordBehind(ts[1].text, Spell(ts[2..]), k);
      AheadBefore(ts[0].text, x, k);
      assert (ts[0].text + x)[0] == ts[0].text[0];
    }
  }

  /** The spelled module is lexed occurrence by occurrence. */
  lemma {:induction false} LexSpell(ts: seq<Token>, k: Classes)
    requires Proper(k) && Fits(ts, k)
    ensures Lex(Spell(ts), k) == Lexemes(ts, k)
    decreases |ts|
  {
    hide *;
    FitsParts(ts, k);
    LexemesStep(ts, k);
    if |ts| == 1 {
      SpellOne(ts);
    } else {
      var n, rest := ts[1].text, Spell(ts[2..]);
      LexSpell(ts[2..], k);
      RestApart(ts[2..], k);
      LexNamed(n, rest, k);
      SpellTwo(ts);
      WordBehind(n, rest, k);
      LexBehindGap(ts[0].text, n + rest, k);
    }
  }

  lemma LexemesStep(ts: seq<Token>, k: Classes)
    requires Fits(ts, k)
    ensures |ts| == 1 ==> Lexemes(ts, k) == Lex(ts[0].text, k)
    ensures |ts| > 1 ==>
      ClosedGap(ts[0].text, k) && Fits(ts[2..], k) && ts[2..] != [] &&
      Lexemes(ts, k) == GapLex(ts[0].text, k) + ([Word(ts[1].text, GapBehind(ts[2..], k))] + Lexemes(ts[2..], k))
  {
    hide Lex, GapLex, GapBehind;
  }

  lemma LexNamed(n: string, rest: string, k: Classes)
    requires Proper(k) && IsWord(n, k) && StartsApart(rest, k)
    ensures Lex(n + rest, k) == [Word(n, rest != "" && k.space(rest[0]) && GapAhead(rest, k))] + Lex(rest, k)
  {
    WordBehind(n, rest, k);
    SpacingFacts.RunOf(n, rest, k);
    LexWord("", n + rest, k);
    assert rest != "" ==> (n + rest)[|n|] == rest[0];
    hide Lex, GapAhead;
  }

  // ---------------------------------------------------------------- bound occurrences among the lexemes

  function TextOf(l: Lexeme): string {
    match l case Word(run, _) => run case Quoted(literal) => literal case Mark(c) => [c]
  }

  function Others(ls: seq<Lexeme>): (ts: seq<Token>)
    ensures |ts| == |ls| && forall i | 0 <= i < |ls| :: ts[i] == Other(TextOf(ls[i]))
  {
    seq(|ls|, i requires 0 <= i < |ls| => Other(TextOf(ls[i])))
  }

  /** A module as its lexemes, the bound occurrences among them marked as names. */
  function Marked(ts: seq<Token>, bindings: set<string>, k: Classes): seq<Token>
    requires Fits(ts, k)
    decreases |ts|
  {
    if |ts| == 1 then Others(Lex(ts[0].text, k))
    else Others(GapLex(ts[0].text, k)) +
         ([if Bound(ts[1], bindings) then ts[1] else Other(ts[1].text)] + Marked(ts[2..], bindings, k))
  }

  /** Every name by its number in a settled order. */
  function Renumbered(ts: seq<Token>, bindings: set<string>, order: seq<string>): (out: seq<Token>)
    ensures |out| == |ts| && forall i | 0 <= i < |ts| :: out[i] == RenameToken(ts[i], bindings, order)
  {
    seq(|ts|, i requires 0 <= i < |ts| => RenameToken(ts[i], bindings, order))
  }

  lemma RenumberedRest(ts: seq<Token>, bindings: set<string>, order: seq<string>)
    requires |ts| >= 2
    ensures Renumbered(ts, bindings, order)[2..] == Renumbered(ts[2..], bindings, order)
  {}

  lemma {:induction false} RenumberedFits(ts: seq<Token>, bindings: set<string>, order: seq<string>, k: Classes)
    requires Fits(ts, k) && LocalsAreWords(k)
    ensures Fits(Renumbered(ts, bindings, order), k)
    decreases |ts|
  {
    hide ClosedGap, Local, IsWord;
    if |ts| > 1 {
      RenumberedFits(ts[2..], bindings, order, k);
      RenumberedRest(ts, bindings, order);
      assert IsWord(Local(Index(order, ts[1].text)), k);
    }
  }

  /** Numbering changes the text of the marked names, and nothing else. */
  ghost predicate Spells(ls: seq<Lexeme>, ts: seq<Token>, bindings: set<string>, order: seq<string>) {
    |ls| == |ts| && forall i | 0 <= i < |ls| :: TextOf(ls[i]) == RenameToken(ts[i], bindings, order).text
  }

  lemma OthersSpell(ls: seq<Lexeme>, bindings: set<string>, order: seq<string>)
    ensures Spells(ls, Others(ls), bindings, order)
  {}

  lemma SpellsConcat(ls: seq<Lexeme>, ms: seq<Lexeme>, ts: seq<Token>, us: seq<Token>, bindings: set<string>, order: seq<string>)
    requires Spells(ls, ts, bindings, order) && Spells(ms, us, bindings, order)
    ensures Spells(ls + ms, ts + us, bindings, order)
  {
    hide TextOf, RenameToken;
  }

  lemma {:induction false} MarkedSpell(ts: seq<Token>, bindings: set<string>, order: seq<string>, k: Classes)
    requires Fits(ts, k) && LocalsAreWords(k) && Fits(Renumbered(ts, bindings, order), k)
    ensures Spells(Lexemes(Renumbered(ts, bindings, order), k), Marked(ts, bindings, k), bindings, order)
    decreases |ts|
  {
    var rs := Renumbered(ts, bindings, order);
    FitsParts(ts, k);
    FitsParts(rs, k);
    assert rs[0] == ts[0];
    if |ts| == 1 {
      OthersSpell(Lex(ts[0].text, k), bindings, order);
    } else {
      RenumberedRest(ts, bindings, order);
      MarkedSpell(ts[2..], bindings, order, k);
      OthersSpell(GapLex(ts[0].text, k), bindings, order);
      var w, m := Word(rs[1].text, GapBehind(rs[2..], k)), if Bound(ts[1], bindings) then ts[1] else Other(ts[1].text);
      assert rs[1] == RenameToken(ts[1], bindings, order);
      assert Spells([w], [m], bindings, order);
      hide Spells, Lex, GapLex, GapBehind, Others;
      SpellsConcat([w], Lexemes(rs[2..], k), [m], Marked(ts[2..], bindings, k), bindings, order);
      SpellsConcat(GapLex(ts[0].text, k), [w] + Lexemes(rs[2..], k), Others(GapLex(ts[0].text, k)), [m] + Marked(ts[2..], bindings, k), bindings, order);
    }
  }

  // ---------------------------------------------------------------- the same order of first use

  lemma {:induction false} OrderConcat(ts: seq<Token>, us: seq<Token>, bindings: set<string>, order: seq<string>)
    ensures Order(ts + us, bindings, order) == Order(us, bindings, Order(ts, bindings, order))
    decreases |ts|
  {
    if ts == [] {
      assert ts + us == us;
    } else {
      assert (ts + us)[0] == ts[0] && (ts + us)[1..] == ts[1..] + us;
      OrderConcat(ts[1..], us, bindings, if Bound(ts[0], bindings) && ts[0].text !in order then order + [ts[0].text] else order);
    }
  }

  lemma {:induction false} OthersUnordered(ts: seq<Token>, bindings: set<string>, order: seq<string>)
    requires forall t | t in ts :: t.Other?
    ensures Order(ts, bindings, order) == order
    decreases |ts|
  {
    if ts != [] {
      assert ts[0] in ts;
      OthersUnordered(ts[1..], bindings, order);
    }
  }

  lemma OneOrder(t: Token, bindings: set<string>, order: seq<string>)
    ensures Order([t], bindings, order) == if Bound(t, bindings) && t.text !in order then order + [t.text] else order
  {
    var next := if Bound(t, bindings) && t.text !in order then order + [t.text] else order;
    assert [t][1..] == [] && Order([], bindings, next) == next;
  }

  lemma {:induction false} MarkedOrder(ts: seq<Token>, bindings: set<string>, order: seq<string>, k: Classes)
    requires Fits(ts, k)
    ensures Order(Marked(ts, bindings, k), bindings, order) == Order(ts, bindings, order)
    decreases |ts|
  {
    FitsParts(ts, k);
    if |ts| == 1 {
      OthersUnordered(Others(Lex(ts[0].text, k)), bindings, order);
      OthersUnordered(ts, bindings, order);
    } else {
      var gap, m := Others(GapLex(ts[0].text, k)), if Bound(ts[1], bindings) then ts[1] else Other(ts[1].text);
      var rest := Marked(ts[2..], bindings, k);
      assert Marked(ts, bindings, k) == gap + ([m] + rest);
      assert ts == [ts[0]] + ([ts[1]] + ts[2..]);
      hide Marked, Order, GapLex, Others;
      OrderConcat(gap, [m] + rest, bindings, order);
      OthersUnordered(gap, bindings, order);
      OrderConcat([m], rest, bindings, order);
      OneOrder(m, bindings, order);
      OneOrder(ts[0], bindings, order);
      OneOrder(ts[1], bindings, order);
      OrderConcat([ts[0]], [ts[1]] + ts[2..], bindings, order);
      OrderConcat([ts[1]], ts[2..], bindings, order);
      MarkedOrder(ts[2..], bindings, Order([m], bindings, order), k);
    }
  }

  // ---------------------------------------------------------------- main result

  /** No word that is kept is spelled like a generated name. */
  ghost predicate NoLocalWords(ts: seq<Token>) {
    forall i, j: nat | 0 <= i < |ts| && ts[i].Other? :: ts[i].text != Local(j)
  }

  lemma {:induction false} MarkedNames(ts: seq<Token>, bindings: set<string>, k: Classes)
    requires Fits(ts, k)
    ensures forall t | t in Marked(ts, bindings, k) && t.Name? :: t.text in bindings
    decreases |ts|
  {
    hide Lex, GapLex;
    if |ts| > 1 { MarkedNames(ts[2..], bindings, k); }
  }

  /** Two modules of equal normal form, each one call whose occurrences are whole words:
      their shapes are equal, and as marked lexemes one is the other with its bound names
      renamed one-to-one, and all other words, literals and characters the same, exactly
      when bound names stand at the same places. */
  lemma EqualFormsAreRenamings(ts: seq<Token>, a: set<string>, us: seq<Token>, b: set<string>, s1: string, s2: string, k: Classes)
    requires Proper(k) && LocalsAreWords(k) && Fits(ts, k) && Fits(us, k) && IsCall(ts, a, k) && IsCall(us, b, k)
    requires Canonical(ts, a, s1, k) == Canonical(us, b, s2, k)
    ensures s1 == s2 && |Marked(ts, a, k)| == |Marked(us, b, k)|
    ensures AlphaEquivalent(Marked(ts, a, k), a, Marked(us, b, k), b) <==> SamePlaces(Marked(ts, a, k), a, Marked(us, b, k), b)
    ensures NoLocalWords(Marked(ts, a, k)) && NoLocalWords(Marked(us, b, k)) ==> AlphaEquivalent(Marked(ts, a, k), a, Marked(us, b, k), b)
  {
    hide *;
    var ls, vs, ws := Lex(Spell(Renamed(ts, a)), k), Marked(ts, a, k), Marked(us, b, k);
    CallsPartFromShapes(ts, a, us, b, s1, s2, k);
    EqualFormsHaveEqualLexemes(ts, a, us, b, s1, s2, k);
    RenamedLexemes(ts, a, k);
    RenamedLexemes(us, b, k);
    MarkedNames(ts, a, k);
    MarkedNames(us, b, k);
    SameLength(ls, vs, a, ws, b);
    RenamingDecides(vs, a, ws, b);
    if SamePlaces(vs, a, ws, b) { SameMarked(ls, vs, a, ws, b); }
    if NoLocalWords(vs) && NoLocalWords(ws) { KeptWordsStay(ls, vs, a, ws, b); }
  }

  lemma RenamedLexemes(ts: seq<Token>, a: set<string>, k: Classes)
    requires Proper(k) && LocalsAreWords(k) && Fits(ts, k)
    ensures Spells(Lex(Spell(Renamed(ts, a)), k), Marked(ts, a, k), a, FirstUses(Marked(ts, a, k), a))
  {
    var order := FirstUses(ts, a);
    assert Renamed(ts, a) == Renumbered(ts, a, order);
    hide *;
    RenumberedFits(ts, a, order, k);
    LexSpell(Renumbered(ts, a, order), k);
    MarkedSpell(ts, a, order, k);
    MarkedOrder(ts, a, [], k);
    FirstUsesIs(ts, a);
    FirstUsesIs(Marked(ts, a, k), a);
  }

  lemma FirstUsesIs(ts: seq<Token>, a: set<string>)
    ensures FirstUses(ts, a) == Order(ts, a, [])
  {}

  lemma SameLength(ls: seq<Lexeme>, ts: seq<Token>, a: set<string>, us: seq<Token>, b: set<string>)
    requires Spells(ls, ts, a, FirstUses(ts, a)) && Spells(ls, us, b, FirstUses(us, b))
    ensures |ts| == |us|
  {}

  lemma SameMarked(ls: seq<Lexeme>, ts: seq<Token>, a: set<string>, us: seq<Token>, b: set<string>)
    requires Spells(ls, ts, a, FirstUses(ts, a)) && Spells(ls, us, b, FirstUses(us, b)) && SamePlaces(ts, a, us, b)
    requires (forall t | t in ts && t.Name? :: t.text in a) && (forall u | u in us && u.Name? :: u.text in b)
    ensures Renamed(ts, a) == Renamed(us, b)
  {
    var p, q := FirstUses(ts, a), FirstUses(us, b);
    hide FirstUses, TextOf, Index, Local;
    forall i | 0 <= i < |ts| ensures RenameToken(ts[i], a, p) == RenameToken(us[i], b, q) {
      assert ts[i] in ts && us[i] in us;
      assert TextOf(ls[i]) == RenameToken(ts[i], a, p).text && TextOf(ls[i]) == RenameToken(us[i], b, q).text;
    }
  }

  /** A kept word that is not spelled like a generated name cannot stand for one. */
  lemma KeptWordsStay(ls: seq<Lexeme>, ts: seq<Token>, a: set<string>, us: seq<Token>, b: set<string>)
    requires Spells(ls, ts, a, FirstUses(ts, a)) && Spells(ls, us, b, FirstUses(us, b)) && NoLocalWords(ts) && NoLocalWords(us)
    requires (forall t | t in ts && t.Name? :: t.text in a) && (forall u | u in us && u.Name? :: u.text in b)
    ensures SamePlaces(ts, a, us, b)
  {
    var p, q := FirstUses(ts, a), FirstUses(us, b);
    hide FirstUses, TextOf, Index, Local;
    forall i | 0 <= i < |ts| ensures Bound(ts[i], a) <==> Bound(us[i], b) {
      assert ts[i] in ts && us[i] in us;
      assert TextOf(ls[i]) == RenameToken(ts[i], a, p).text && TextOf(ls[i]) == RenameToken(us[i], b, q).text;
    }
  }
}
